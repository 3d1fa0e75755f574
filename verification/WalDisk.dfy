/** Log pages in the pool and their images on disk: what growing and filling the chain
    does to its bytes and to the links on disk. */
module WalDisk {
  import opened Bytes
  import opened WalRing
  import opened WalChain

  lemma Assoc(a: seq<byte>, b: seq<byte>, c: seq<byte>)
    ensures a + (b + c) == (a + b) + c
  {
  }

  /** Every log page with contents has been written to disk as it is in the pool. */
  ghost predicate OnDisk(pages: map<PageId, WalPage>, disk: map<PageId, WalPage>, chain: seq<PageId>) {
    forall p | p in chain && p in pages && pages[p].used > 0 :: SameBytes(pages, disk, p)
  }

  /** The tail has no link on disk yet, and no later page is there. */
  ghost predicate TailOnDisk(disk: map<PageId, WalPage>, tail: PageId) {
    (forall p | p in disk :: p <= tail) && (tail in disk ==> disk[tail].next == 0)
  }

  lemma LinkOnDisk(pages: map<PageId, WalPage>, disk: map<PageId, WalPage>, chain: seq<PageId>, id: PageId, page: WalPage)
    requires ChainOk(pages, chain) && OnDisk(pages, disk, chain) && id > Last(chain) && page.used == 0
    requires pages[Last(chain)].used > 0
    ensures var t := Last(chain); var pages' := pages[id := page][t := pages[t].(next := id)];
      OnDisk(pages', disk, chain + [id]) && OnDisk(pages', disk[t := pages'[t]], chain + [id])
  {
    var t := Last(chain);
    var pages' := pages[id := page][t := pages[t].(next := id)];
    forall p | p in chain + [id] && p in pages' && pages'[p].used > 0
      ensures SameBytes(pages', disk, p) && SameBytes(pages', disk[t := pages'[t]], p)
    {
      assert p in chain && p in pages;
      assert SameBytes(pages, disk, p);
    }
  }

  lemma FillOnDisk(pages: map<PageId, WalPage>, disk: map<PageId, WalPage>, chain: seq<PageId>, bytes: seq<byte>)
    requires ChainOk(pages, chain) && OnDisk(pages, disk, chain) && pages[Last(chain)].used + |bytes| <= PAYLOAD
    ensures var t := Last(chain); var pages' := pages[t := Filled(pages[t], bytes)];
      OnDisk(pages', disk[t := pages'[t]], chain)
  {
    var t := Last(chain);
    var pages' := pages[t := Filled(pages[t], bytes)];
    forall p | p in chain && p in pages' && pages'[p].used > 0 ensures SameBytes(pages', disk[t := pages'[t]], p) {
      assert p != t ==> SameBytes(pages, disk, p);
    }
  }

  ghost predicate LinkWritten(disk: map<PageId, WalPage>, chain: seq<PageId>, i: nat)
    requires i + 1 < |chain|
  {
    chain[i] in disk && disk[chain[i]].next == chain[i + 1]
  }

  ghost predicate AllLinked(disk: map<PageId, WalPage>, chain: seq<PageId>) {
    forall i | 0 <= i < |chain| - 1 :: LinkWritten(disk, chain, i)
  }

  /** Writing the tail page changes no link of the others; writing it with its link adds one;
      leaving it unwritten leaves one out. */
  lemma TailWritten(pages: map<PageId, WalPage>, disk: map<PageId, WalPage>, chain: seq<PageId>, page: WalPage, id: PageId)
    requires ChainOk(pages, chain) && TailOnDisk(disk, Last(chain)) && id > 0
    ensures AllLinked(disk[Last(chain) := page], chain) <==> AllLinked(disk, chain)
    ensures page.next == id ==> (AllLinked(disk[Last(chain) := page], chain + [id]) <==> AllLinked(disk, chain))
    ensures !AllLinked(disk, chain + [id])
  {
    var d, more, n := disk[Last(chain) := page], chain + [id], |chain|;
    forall i | 0 <= i < n - 1
      ensures LinkWritten(d, chain, i) <==> LinkWritten(disk, chain, i)
    {
      ChainAscends(pages, chain, i, n - 1);
    }
    forall i | 0 <= i < n - 1
      ensures LinkWritten(d, more, i) <==> LinkWritten(d, chain, i)
    {
    }
    assert page.next == id ==> LinkWritten(d, more, n - 1);
    assert !LinkWritten(disk, more, n - 1);
    Prefixed(d, chain, id);
  }

  lemma Prefixed(d: map<PageId, WalPage>, chain: seq<PageId>, id: PageId)
    requires chain != []
    ensures AllLinked(d, chain + [id]) <==> AllLinked(d, chain) && LinkWritten(d, chain + [id], |chain| - 1)
  {
    var more, n := chain + [id], |chain|;
    forall i | 0 <= i < n - 1
      ensures LinkWritten(d, more, i) <==> LinkWritten(d, chain, i)
    {
    }
    if AllLinked(d, more) {
      assert LinkWritten(d, more, n - 1);
    }
  }

  lemma TailPayload(pages: map<PageId, WalPage>, chain: seq<PageId>)
    requires ChainOk(pages, chain)
    ensures |chain| > 0 && PageOk(pages, Last(chain))
  {
  }

  /** The chain of log pages: in shape, with its tail, and on disk where it has contents. */
  ghost predicate Shelf(pages: map<PageId, WalPage>, disk: map<PageId, WalPage>, chain: seq<PageId>, tail: PageId, used: nat, segNo: nat) {
    && ChainOk(pages, chain)
    && tail == Last(chain) && tail in pages && used == pages[tail].used <= PAYLOAD && pages[tail].segNo <= segNo
    && OnDisk(pages, disk, chain) && TailOnDisk(disk, tail)
  }

  lemma ShelfTail(pages: map<PageId, WalPage>, disk: map<PageId, WalPage>, chain: seq<PageId>, tail: PageId, used: nat, segNo: nat)
    requires Shelf(pages, disk, chain, tail, used, segNo)
    ensures tail in pages && pages[tail].used == used <= PAYLOAD && |pages[tail].payload| == PAYLOAD
    ensures forall i | 0 <= i < |chain| :: PageOk(pages, chain[i])
    ensures chain != [] && Shelf(pages, disk, chain, tail, used, segNo + 1) && pages[tail].segNo < segNo + 1
  {
    TailPayload(pages, chain);
  }

  function LinkTo(pages: map<PageId, WalPage>, tail: PageId, id: PageId, page: WalPage): map<PageId, WalPage>
    requires tail in pages
  {
    pages[id := page][tail := pages[tail].(next := id)]
  }

  /** A fresh page linked behind a full tail changes nothing of the log; its link is on disk
      when the old tail is written again. */
  lemma ShelfGrows(pages: map<PageId, WalPage>, disk: map<PageId, WalPage>, chain: seq<PageId>, t: PageId, segNo: nat, id: PageId, page: WalPage)
    requires Shelf(pages, disk, chain, t, PAYLOAD, segNo) && pages[t].segNo < segNo
    requires id > t && |page.payload| == PAYLOAD && page.used == 0 && page.next == 0 && page.segNo == segNo
    requires page.startLsn == MakeLsn(t, PAYLOAD)
    ensures var pages' := LinkTo(pages, t, id, page); var chain', disk' := chain + [id], disk[t := pages'[t]];
      && Shelf(pages', disk, chain', id, 0, segNo) && Shelf(pages', disk', chain', id, 0, segNo)
      && (forall i | 0 <= i < |chain| :: PageOk(pages, chain[i])) && (forall i | 0 <= i < |chain'| :: PageOk(pages', chain'[i]))
      && ChainBytes(pages', chain') == ChainBytes(pages, chain)
      && (AllLinked(disk', chain') <==> AllLinked(disk, chain)) && !AllLinked(disk, chain')
  {
    hide ChainBytes, AllLinked;
    LinkKeeps(pages, chain, id, page);
    LinkOnDisk(pages, disk, chain, id, page);
    hide OnDisk;
    TailWritten(pages, disk, chain, pages[t].(next := id), id);
  }

  /** Moving bytes from the ring to the tail page changes nothing of the log. */
  lemma ShelfFills(pages: map<PageId, WalPage>, disk: map<PageId, WalPage>, chain: seq<PageId>, t: PageId, used: nat, segNo: nat,
                   buf: seq<byte>, a: nat, b: nat, c: nat)
    requires Shelf(pages, disk, chain, t, used, segNo) && |buf| == BUF_SIZE && a <= b <= c && used + (b - a) <= PAYLOAD
    ensures t in pages && |pages[t].payload| == PAYLOAD && pages[t].used == used
    ensures var pages' := pages[t := Filled(pages[t], Slice(buf, a, b))]; var disk' := disk[t := pages'[t]];
      && Shelf(pages', disk', chain, t, used + (b - a), segNo)
      && (forall i | 0 <= i < |chain| :: PageOk(pages, chain[i])) && (forall i | 0 <= i < |chain| :: PageOk(pages', chain[i]))
      && ChainBytes(pages', chain) + Slice(buf, b, c) == ChainBytes(pages, chain) + Slice(buf, a, c)
      && (AllLinked(disk', chain) <==> AllLinked(disk, chain))
  {
    hide ChainBytes, Slice, AllLinked;
    TailPayload(pages, chain);
    FillAppends(pages, chain, Slice(buf, a, b));
    FillOnDisk(pages, disk, chain, Slice(buf, a, b));
    hide OnDisk;
    TailWritten(pages, disk, chain, Filled(pages[t], Slice(buf, a, b)), 1);
    SliceSplit(buf, a, b, c);
    Assoc(ChainBytes(pages, chain), Slice(buf, a, b), Slice(buf, b, c));
  }
}
