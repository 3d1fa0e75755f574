/** The chain of log pages and the order of log sequence numbers, as values. */
module WalChain {
  import opened Bytes
  import opened WalRing

  type PageId = nat

  /** Payload of a log page: 8192 bytes less the 41-byte page header and the 32-byte
      log page header. */
  const PAYLOAD: nat := 8192 - 41 - 32

  const LSN_OFFSETS: nat := 0x1_0000_0000

  datatype WalPage = WalPage(segNo: nat, startLsn: nat, used: nat, next: PageId, payload: seq<byte>)

  // ------------------------------------------------------------ the chain

  ghost predicate PageOk(pages: map<PageId, WalPage>, p: PageId) {
    p in pages && |pages[p].payload| == PAYLOAD && pages[p].used <= PAYLOAD
  }

  /** Page `p` is full and linked to `q`, a later segment on a higher page id, which starts with
      the LSN of the end of `p`. */
  ghost predicate Linked(pages: map<PageId, WalPage>, p: PageId, q: PageId) {
    && p in pages && q in pages
    && pages[p].next == q && pages[p].used == PAYLOAD && p < q && pages[p].segNo < pages[q].segNo
    && pages[q].startLsn == MakeLsn(p, PAYLOAD)
  }

  ghost predicate ChainOk(pages: map<PageId, WalPage>, chain: seq<PageId>) {
    && |chain| > 0 && chain[0] > 0
    && (forall i | 0 <= i < |chain| :: PageOk(pages, chain[i]))
    && (forall i | 0 <= i < |chain| - 1 :: Linked(pages, chain[i], chain[i + 1]))
    && pages[chain[|chain| - 1]].next == 0
  }

  function Last(chain: seq<PageId>): PageId
    requires |chain| > 0
  {
    chain[|chain| - 1]
  }

  /** The payload bytes of the chain, first page first. */
  ghost function ChainBytes(pages: map<PageId, WalPage>, chain: seq<PageId>): seq<byte>
    requires forall i | 0 <= i < |chain| :: PageOk(pages, chain[i])
  {
    if chain == [] then []
    else
      assert PageOk(pages, chain[|chain| - 1]);
      var page := pages[chain[|chain| - 1]];
      ChainBytes(pages, chain[..|chain| - 1]) + page.payload[..page.used]
  }

  lemma {:induction false} ChainAscends(pages: map<PageId, WalPage>, chain: seq<PageId>, i: nat, j: nat)
    requires ChainOk(pages, chain) && i < j < |chain|
    ensures chain[i] < chain[j] && pages[chain[i]].segNo < pages[chain[j]].segNo
    decreases j - i
  {
    assert Linked(pages, chain[j - 1], chain[j]);
    if i < j - 1 {
      ChainAscends(pages, chain, i, j - 1);
    }
  }

  ghost predicate SameBytes(pages: map<PageId, WalPage>, pages': map<PageId, WalPage>, p: PageId) {
    p in pages && p in pages' && pages'[p].payload == pages[p].payload && pages'[p].used == pages[p].used
  }

  lemma {:induction false} ChainBytesFrame(pages: map<PageId, WalPage>, pages': map<PageId, WalPage>, chain: seq<PageId>)
    requires forall i | 0 <= i < |chain| :: PageOk(pages, chain[i])
    requires forall i | 0 <= i < |chain| :: PageOk(pages, chain[i]) && SameBytes(pages, pages', chain[i])
    ensures forall i | 0 <= i < |chain| :: PageOk(pages', chain[i])
    ensures ChainBytes(pages', chain) == ChainBytes(pages, chain)
  {
    if chain != [] {
      ChainBytesFrame(pages, pages', chain[..|chain| - 1]);
    }
  }

  function Filled(p: WalPage, bytes: seq<byte>): (r: WalPage)
    requires |p.payload| == PAYLOAD && p.used + |bytes| <= PAYLOAD
    ensures |r.payload| == PAYLOAD && r.used == p.used + |bytes| && r.payload[..r.used] == p.payload[..p.used] + bytes
    ensures r.next == p.next && r.segNo == p.segNo && r.startLsn == p.startLsn
  {
    p.(payload := p.payload[..p.used] + bytes + p.payload[p.used + |bytes|..], used := p.used + |bytes|)
  }

  /** Filling the last page appends to the chain's bytes. */
  lemma FillAppends(pages: map<PageId, WalPage>, chain: seq<PageId>, bytes: seq<byte>)
    requires ChainOk(pages, chain) && pages[Last(chain)].used + |bytes| <= PAYLOAD
    ensures var pages' := pages[Last(chain) := Filled(pages[Last(chain)], bytes)];
      ChainOk(pages', chain) && ChainBytes(pages', chain) == ChainBytes(pages, chain) + bytes
  {
    var t := Last(chain);
    var pages' := pages[t := Filled(pages[t], bytes)];
    var front := chain[..|chain| - 1];
    forall i | 0 <= i < |front| ensures front[i] < t {
      ChainAscends(pages, chain, i, |chain| - 1);
    }
    forall i | 0 <= i < |chain| - 1 ensures Linked(pages', chain[i], chain[i + 1]) {
      assert Linked(pages, chain[i], chain[i + 1]);
    }
    ChainBytesFrame(pages, pages', front);
    assert ChainBytes(pages, front) + (pages[t].payload[..pages[t].used] + bytes) ==
           ChainBytes(pages, front) + pages[t].payload[..pages[t].used] + bytes;
  }

  /** Linking an empty page behind a full last page leaves the chain's bytes alone. */
  lemma LinkKeeps(pages: map<PageId, WalPage>, chain: seq<PageId>, id: PageId, page: WalPage)
    requires ChainOk(pages, chain) && pages[Last(chain)].used == PAYLOAD
    requires id > Last(chain) && |page.payload| == PAYLOAD && page.used == 0 && page.next == 0
    requires page.segNo > pages[Last(chain)].segNo && page.startLsn == MakeLsn(Last(chain), PAYLOAD)
    ensures var pages' := pages[id := page][Last(chain) := pages[Last(chain)].(next := id)];
      ChainOk(pages', chain + [id]) && ChainBytes(pages', chain + [id]) == ChainBytes(pages, chain)
  {
    var t := Last(chain);
    var pages' := pages[id := page][t := pages[t].(next := id)];
    var chain' := chain + [id];
    forall i | 0 <= i < |chain| ensures chain[i] <= t && chain[i] != id {
      if i < |chain| - 1 {
        ChainAscends(pages, chain, i, |chain| - 1);
      }
    }
    forall i | 0 <= i < |chain'| - 1 ensures Linked(pages', chain'[i], chain'[i + 1]) {
      if i < |chain| - 1 {
        assert Linked(pages, chain[i], chain[i + 1]);
      }
    }
    ChainBytesFrame(pages, pages', chain);
    assert chain'[..|chain'| - 1] == chain;
  }

  // -------------------------------------------------- log sequence numbers

  function MakeLsn(page: PageId, offset: nat): nat
    requires offset < LSN_OFFSETS
  {
    page * LSN_OFFSETS + offset
  }

  /** The number as a 64-bit shift makes it. */
  function Lsn64(page: PageId, offset: nat): nat
    requires offset < LSN_OFFSETS
  {
    MakeLsn(page, offset) % (LSN_OFFSETS * LSN_OFFSETS)
  }

  /** Page ids below 2^32, and only those, can be read back from the number. */
  lemma LsnRoundTrip(page: PageId, offset: nat)
    requires offset < LSN_OFFSETS
    ensures Lsn64(page, offset) / LSN_OFFSETS == page <==> page < LSN_OFFSETS
    ensures Lsn64(page, offset) % LSN_OFFSETS == offset
    ensures page < LSN_OFFSETS ==> Lsn64(page, offset) == MakeLsn(page, offset)
  {
    var high := page / LSN_OFFSETS;
    assert MakeLsn(page, offset) == high * (LSN_OFFSETS * LSN_OFFSETS) + MakeLsn(page % LSN_OFFSETS, offset);
    assert Lsn64(page, offset) == MakeLsn(page % LSN_OFFSETS, offset);
  }

  /** Order of the numbers is order by page, then by offset. */
  lemma LsnLess(p: PageId, a: nat, q: PageId, b: nat)
    requires a < LSN_OFFSETS && b < LSN_OFFSETS
    ensures MakeLsn(p, a) < MakeLsn(q, b) <==> p < q || (p == q && a < b)
    ensures p < LSN_OFFSETS && q < LSN_OFFSETS ==> Lsn64(p, a) == MakeLsn(p, a) && Lsn64(q, b) == MakeLsn(q, b)
  {
  }

  /** One accepted record: its number, the number of the record before it, and where
      its bytes lie in the stream of all accepted bytes. */
  datatype Rec = Rec(lsn: nat, prev: nat, off: nat, len: nat)

  ghost predicate Contiguous(recs: seq<Rec>, total: nat) {
    && (forall i | 0 <= i < |recs| :: EndsAt(recs, i, total))
    && (if recs == [] then total == 0 else recs[0].off == 0)
  }

  /** Record `i` ends where the next one starts, or where the stream ends. */
  ghost predicate EndsAt(recs: seq<Rec>, i: nat, total: nat)
    requires i < |recs|
  {
    recs[i].len > 0 && recs[i].off + recs[i].len == (if i + 1 < |recs| then recs[i + 1].off else total)
  }

  ghost predicate NamesPrevious(recs: seq<Rec>, i: nat)
    requires i < |recs|
  {
    recs[i].prev == (if i == 0 then 0 else recs[i - 1].lsn)
  }

  lemma {:induction false} OffsetsAscend(recs: seq<Rec>, total: nat, i: nat)
    requires Contiguous(recs, total) && i < |recs|
    ensures recs[i].off < recs[i].off + recs[i].len <= total
    ensures forall j | i < j < |recs| :: recs[i].off + recs[i].len <= recs[j].off
    decreases |recs| - i
  {
    assert EndsAt(recs, i, total);
    if i + 1 < |recs| {
      OffsetsAscend(recs, total, i + 1);
    }
  }

  lemma ContiguousAppend(recs: seq<Rec>, total: nat, r: Rec)
    requires Contiguous(recs, total) && r.off == total && r.len > 0
    ensures Contiguous(recs + [r], total + r.len)
  {
    var recs' := recs + [r];
    var total' := total + r.len;
    forall i | 0 <= i < |recs'| ensures EndsAt(recs', i, total') {
      assert i < |recs| ==> EndsAt(recs, i, total);
    }
  }

  /** What the numbers promise: they increase, each record names its predecessor, and
      comparing with flushLsn (ckptLsn) tells whether a record starts before flushOff
      (before the end of the last completed checkpoint). */
  ghost predicate LsnOk(recs: seq<Rec>, next: nat, prevLsn: nat, flushOff: nat, flushLsn: nat, ckptOff: nat, ckptLsn: nat) {
    && (forall i, j | 0 <= i < j < |recs| :: recs[i].lsn < recs[j].lsn)
    && (forall i | 0 <= i < |recs| :: recs[i].lsn < next)
    && (forall i | 0 <= i < |recs| :: NamesPrevious(recs, i))
    && prevLsn == (if recs == [] then 0 else recs[|recs| - 1].lsn)
    && (forall i | 0 <= i < |recs| :: recs[i].off < flushOff <==> recs[i].lsn < flushLsn)
    && (forall i | 0 <= i < |recs| :: recs[i].off < ckptOff <==> recs[i].lsn < ckptLsn)
    && ckptLsn <= flushLsn <= next && ckptOff <= flushOff
  }

  lemma LsnAppend(recs: seq<Rec>, next: nat, prevLsn: nat, flushOff: nat, flushLsn: nat, ckptOff: nat, ckptLsn: nat, r: Rec, next': nat)
    requires LsnOk(recs, next, prevLsn, flushOff, flushLsn, ckptOff, ckptLsn)
    requires r.lsn == next < next' && r.prev == prevLsn && r.off >= flushOff
    ensures LsnOk(recs + [r], next', r.lsn, flushOff, flushLsn, ckptOff, ckptLsn)
  {
    var recs' := recs + [r];
    forall i | 0 <= i < |recs'| ensures NamesPrevious(recs', i) {
      assert i < |recs| ==> NamesPrevious(recs, i);
    }
  }

  /** A flush up to the end of the last record moves the boundary past all records. */
  lemma LsnFlush(recs: seq<Rec>, next: nat, prevLsn: nat, flushOff: nat, flushLsn: nat, ckptOff: nat, ckptLsn: nat,
                 total: nat, next': nat)
    requires LsnOk(recs, next, prevLsn, flushOff, flushLsn, ckptOff, ckptLsn) && Contiguous(recs, total)
    requires next <= next' && flushOff <= total
    ensures LsnOk(recs, next', prevLsn, total, next', ckptOff, ckptLsn)
  {
    forall i | 0 <= i < |recs| ensures recs[i].off < total {
      OffsetsAscend(recs, total, i);
    }
  }
}
