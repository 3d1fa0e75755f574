/** What inserting one row does to a table, said without phases or time slices. */
module HeapInsertSpec {
  import opened Basics
  import opened Bytes
  import opened HeapLayout
  import opened HeapEffects
  import opened UndoHistory

  const KEY_SIZE: nat := 8
  const SCAN_BUF: nat := 256

  // ---------------------------------------------------------- page chains

  predicate Link(m: Pages, ch: seq<PageId>, i: nat)
    requires i < |ch|
  {
    && ch[i] != 0 && ch[i] in m
    && m[ch[i]].next == if i + 1 < |ch| then ch[i + 1] else 0
  }

  /** The pages of a table from its root on: no page twice, and the last one ends the list. */
  ghost predicate IsChain(m: Pages, root: PageId, ch: seq<PageId>) {
    && ch != [] && ch[0] == root
    && (forall i | 0 <= i < |ch| :: Link(m, ch, i))
    && (forall i, j | 0 <= i < j < |ch| :: ch[i] != ch[j])
  }

  /** `t` is the address of a row of the table. */
  predicate RowIn(m: Pages, ch: seq<PageId>, t: Tid) { t.page in ch && LiveAt(m, t) }

  predicate HasKey(data: seq<byte>, key: seq<byte>) { |data| >= KEY_SIZE && data[..KEY_SIZE] == key }

  // ------------------------------------------------------ duplicate scan

  /** What the scan finds first: a row it cannot read, a row with the key, or neither. */
  datatype Verdict = Clear | Duplicate | TooLong

  function JudgeSlot(s: Slot, key: seq<byte>): Verdict {
    if s.Dead? then Clear
    else if |s.tuple.data| > SCAN_BUF then TooLong
    else if HasKey(s.tuple.data, key) then Duplicate
    else Clear
  }

  function ScanSlots(slots: seq<Slot>, i: nat, key: seq<byte>): Verdict
    decreases |slots| - i
  {
    if i >= |slots| then Clear
    else
      var v := JudgeSlot(slots[i], key);
      if v.Clear? then ScanSlots(slots, i + 1, key) else v
  }

  function ScanChain(m: Pages, ch: seq<PageId>, k: nat, key: seq<byte>): Verdict
    requires forall i | 0 <= i < |ch| :: ch[i] in m
    decreases |ch| - k
  {
    if k >= |ch| then Clear
    else
      var v := ScanSlots(m[ch[k]].slots, 0, key);
      if v.Clear? then ScanChain(m, ch, k + 1, key) else v
  }

  lemma {:induction false} ScanSlotsFinds(slots: seq<Slot>, i: nat, key: seq<byte>)
    ensures ScanSlots(slots, i, key).Clear? <==> forall j | i <= j < |slots| :: JudgeSlot(slots[j], key).Clear?
    ensures !ScanSlots(slots, i, key).Clear? ==> exists j | i <= j < |slots| :: JudgeSlot(slots[j], key) == ScanSlots(slots, i, key)
    decreases |slots| - i
  {
    if i < |slots| {
      ScanSlotsFinds(slots, i + 1, key);
    }
  }

  predicate ClearAt(m: Pages, ch: seq<PageId>, t: Tid, key: seq<byte>) {
    RowIn(m, ch, t) ==> JudgeSlot(m[t.page].slots[t.slot], key).Clear?
  }

  ghost predicate AllClear(m: Pages, ch: seq<PageId>, key: seq<byte>) { forall t :: ClearAt(m, ch, t, key) }

  predicate SlotsClear(slots: seq<Slot>, key: seq<byte>) { forall j | 0 <= j < |slots| :: JudgeSlot(slots[j], key).Clear? }

  /** The scan is clear exactly when every row is readable and has another key. */
  lemma {:induction false} ScanChainClear(m: Pages, ch: seq<PageId>, k: nat, key: seq<byte>)
    requires forall i | 0 <= i < |ch| :: ch[i] in m
    requires k <= |ch|
    ensures ScanChain(m, ch, k, key).Clear? <==> AllClear(m, ch[k..], key)
    decreases |ch| - k
  {
    hide JudgeSlot;
    if k < |ch| {
      ScanChainClear(m, ch, k + 1, key);
      ScanSlotsFinds(m[ch[k]].slots, 0, key);
      assert ch[k..] == [ch[k]] + ch[k + 1..];
      PageClear(m, ch[k], ch[k + 1..], key);
    }
  }

  lemma PageClear(m: Pages, id: PageId, rest: seq<PageId>, key: seq<byte>)
    requires id in m
    ensures AllClear(m, [id] + rest, key) <==> SlotsClear(m[id].slots, key) && AllClear(m, rest, key)
  {
    hide JudgeSlot;
    var ch := [id] + rest;
    if AllClear(m, ch, key) {
      forall j | 0 <= j < |m[id].slots|
        ensures JudgeSlot(m[id].slots[j], key).Clear?
      {
        assert ClearAt(m, ch, Tid(id, j), key) by { DeadClear(m[id].slots[j], key); }
        DeadClear(m[id].slots[j], key);
      }
      forall t
        ensures ClearAt(m, rest, t, key)
      {
        assert ClearAt(m, ch, t, key);
      }
    }
    if SlotsClear(m[id].slots, key) && AllClear(m, rest, key) {
      forall t
        ensures ClearAt(m, ch, t, key)
      {
        assert ClearAt(m, rest, t, key);
      }
    }
  }

  lemma DeadClear(s: Slot, key: seq<byte>)
    ensures s.Dead? ==> JudgeSlot(s, key).Clear?
  {
  }

  ghost predicate Readable(m: Pages, ch: seq<PageId>) {
    forall t | RowIn(m, ch, t) :: KEY_SIZE <= |TupleAt(m, t).data| <= SCAN_BUF
  }

  lemma {:induction false} ScanChainReadable(m: Pages, ch: seq<PageId>, k: nat, key: seq<byte>)
    requires forall i | 0 <= i < |ch| :: ch[i] in m
    requires Readable(m, ch)
    ensures !ScanChain(m, ch, k, key).TooLong?
    decreases |ch| - k
  {
    if k < |ch| {
      ScanChainReadable(m, ch, k + 1, key);
      ScanSlotsFinds(m[ch[k]].slots, 0, key);
      if ScanSlots(m[ch[k]].slots, 0, key).TooLong? {
        var j :| 0 <= j < |m[ch[k]].slots| && JudgeSlot(m[ch[k]].slots[j], key).TooLong?;
        assert RowIn(m, ch, Tid(ch[k], j));
        assert false;
      }
    }
  }

  // --------------------------------------------------------- placing a row

  function FirstRoom(m: Pages, ch: seq<PageId>, k: nat, len: nat): (j: nat)
    requires forall i | 0 <= i < |ch| :: ch[i] in m
    requires k <= |ch|
    ensures k <= j <= |ch|
    ensures j < |ch| ==> HasRoom(m[ch[j]], len)
    decreases |ch| - k
  {
    if k == |ch| || HasRoom(m[ch[k]], len) then k else FirstRoom(m, ch, k + 1, len)
  }

  /** The answer and the pages after an insert; `at` is where the row went, and the
      chain grew when it went to a new page. */
  datatype Final = Final(err: int, pages: Pages, at: Tid, grew: bool)

  function RowTuple(data: seq<byte>, xid: nat): Tuple { Tuple(xid, 0, 0, data) }

  function Place(m: Pages, ch: seq<PageId>, data: seq<byte>, xid: nat, supply: seq<PageId>): Final
    requires ch != [] && forall i | 0 <= i < |ch| :: ch[i] in m
  {
    var j := FirstRoom(m, ch, 0, |data|);
    if |data| > PAGE_SIZE then Final(EINVAL, m, Tid(0, 0), false)
    else if j < |ch| then
      var p := m[ch[j]];
      Final(0, m[ch[j] := Inserted(p, RowTuple(data, xid))], Tid(ch[j], |p.slots|), false)
    else if supply == [] then Final(ENOSPC, m, Tid(0, 0), false)
    else if !HasRoom(EmptyPage, |data|) then Final(ENOSPC, m[supply[0] := EmptyPage], Tid(0, 0), false)
    else
      var m' := m[supply[0] := Inserted(EmptyPage, RowTuple(data, xid))];
      var tail := ch[|ch| - 1];
      Final(0, m'[tail := m'[tail].(next := supply[0])], Tid(supply[0], 0), true)
  }

  function InsertRow(m: Pages, ch: seq<PageId>, data: seq<byte>, xid: nat, supply: seq<PageId>): Final
    requires ch != [] && forall i | 0 <= i < |ch| :: ch[i] in m
  {
    if |data| < KEY_SIZE then Final(EINVAL, m, Tid(0, 0), false)
    else
      match ScanChain(m, ch, 0, data[..KEY_SIZE])
      case TooLong => Final(ENOSPC, m, Tid(0, 0), false)
      case Duplicate => Final(EEXIST, m, Tid(0, 0), false)
      case Clear => Place(m, ch, data, xid, supply)
  }

  predicate Supplied(m: Pages, supply: seq<PageId>) { supply != [] ==> supply[0] != 0 && supply[0] !in m }

  function ChainAfter(ch: seq<PageId>, f: Final): seq<PageId> { if f.grew then ch + [f.at.page] else ch }

  lemma ChainPages(m: Pages, root: PageId, ch: seq<PageId>)
    requires IsChain(m, root, ch)
    ensures ch != [] && forall i | 0 <= i < |ch| :: ch[i] in m
  {
    forall i | 0 <= i < |ch|
      ensures ch[i] in m
    {
      assert Link(m, ch, i);
    }
  }

  // ---------------------------------------------------------- main results

  /** The chain stays a chain: it is the same one, or it has a new last page. */
  lemma PlaceKeepsChain(m: Pages, root: PageId, ch: seq<PageId>, data: seq<byte>, xid: nat, supply: seq<PageId>)
    requires IsChain(m, root, ch) && Supplied(m, supply)
    requires forall i | 0 <= i < |ch| :: ch[i] in m
    ensures var f := Place(m, ch, data, xid, supply); IsChain(f.pages, root, ChainAfter(ch, f))
  {
    hide Inserted, HasRoom, FirstRoom;
    var f := Place(m, ch, data, xid, supply);
    var ch' := ChainAfter(ch, f);
    forall i | 0 <= i < |ch'|
      ensures Link(f.pages, ch', i)
    {
      assert i < |ch| ==> Link(m, ch, i);
      if !f.grew && f.err == 0 {
        InsertedLink(m[f.at.page], RowTuple(data, xid));
      } else if f.grew {
        InsertedLink(EmptyPage, RowTuple(data, xid));
      }
    }
  }

  lemma InsertedLink(p: Page, t: Tuple)
    requires HasRoom(p, |t.data|)
    ensures Inserted(p, t).next == p.next
  {
  }

  /** A placed row is new, is there afterwards, and is the only difference between the tables. */
  lemma PlaceAddsOneRow(m: Pages, root: PageId, ch: seq<PageId>, data: seq<byte>, xid: nat, supply: seq<PageId>, t: Tid)
    requires IsChain(m, root, ch) && Supplied(m, supply)
    requires forall i | 0 <= i < |ch| :: ch[i] in m
    ensures var f := Place(m, ch, data, xid, supply); var ch' := ChainAfter(ch, f);
      && (f.err == 0 ==> !RowIn(m, ch, f.at) && RowIn(f.pages, ch', f.at) && TupleAt(f.pages, f.at) == RowTuple(data, xid))
      && (f.err != 0 || t != f.at ==> (RowIn(f.pages, ch', t) <==> RowIn(m, ch, t)) && (RowIn(m, ch, t) ==> TupleAt(f.pages, t) == TupleAt(m, t)))
  {
    hide FirstRoom, HasRoom;
    assert supply != [] ==> supply[0] !in ch;
  }

  /** Rows have pairwise different keys. */
  predicate KeysDiffer(m: Pages, ch: seq<PageId>, t: Tid, u: Tid) {
    RowIn(m, ch, t) && RowIn(m, ch, u) && t != u && |TupleAt(m, t).data| >= KEY_SIZE ==>
      !HasKey(TupleAt(m, u).data, TupleAt(m, t).data[..KEY_SIZE])
  }

  ghost predicate KeysDistinct(m: Pages, ch: seq<PageId>) { forall t, u :: KeysDiffer(m, ch, t, u) }

  /** An insert keeps keys pairwise distinct, whatever it answers. */
  lemma InsertKeepsKeys(m: Pages, root: PageId, ch: seq<PageId>, data: seq<byte>, xid: nat, supply: seq<PageId>)
    requires IsChain(m, root, ch) && Supplied(m, supply) && KeysDistinct(m, ch)
    requires forall i | 0 <= i < |ch| :: ch[i] in m
    ensures var f := InsertRow(m, ch, data, xid, supply); KeysDistinct(f.pages, ChainAfter(ch, f))
  {
    ChainPages(m, root, ch);
    hide Place, IsChain, RowIn, TupleAt, ScanChain;
    var f := InsertRow(m, ch, data, xid, supply);
    var ch' := ChainAfter(ch, f);
    if |data| >= KEY_SIZE && ScanChain(m, ch, 0, data[..KEY_SIZE]).Clear? {
      ScanChainClear(m, ch, 0, data[..KEY_SIZE]);
      assert ch[0..] == ch;
      forall t, u
        ensures KeysDiffer(f.pages, ch', t, u)
      {
        PlaceAddsOneRow(m, root, ch, data, xid, supply, t);
        PlaceAddsOneRow(m, root, ch, data, xid, supply, u);
        assert KeysDiffer(m, ch, t, u);
        OtherKey(m, ch, data, t);
        OtherKey(m, ch, data, u);
      }
    }
  }

  lemma OtherKey(m: Pages, ch: seq<PageId>, data: seq<byte>, t: Tid)
    requires |data| >= KEY_SIZE && AllClear(m, ch, data[..KEY_SIZE])
    ensures RowIn(m, ch, t) ==> !HasKey(TupleAt(m, t).data, data[..KEY_SIZE])
    ensures RowIn(m, ch, t) && |TupleAt(m, t).data| >= KEY_SIZE ==> !HasKey(data, TupleAt(m, t).data[..KEY_SIZE])
  {
    assert ClearAt(m, ch, t, data[..KEY_SIZE]);
  }

  /** Over readable rows, an insert reports a duplicate exactly when a row has its key,
      and then changes nothing. */
  lemma DuplicateIffKeyPresent(m: Pages, root: PageId, ch: seq<PageId>, data: seq<byte>, xid: nat, supply: seq<PageId>)
    requires IsChain(m, root, ch) && Readable(m, ch) && |data| >= KEY_SIZE
    requires forall i | 0 <= i < |ch| :: ch[i] in m
    ensures var f := InsertRow(m, ch, data, xid, supply);
      && (f.err == EEXIST <==> exists t :: RowIn(m, ch, t) && HasKey(TupleAt(m, t).data, data[..KEY_SIZE]))
      && (f.err == EEXIST ==> f.pages == m)
  {
    ChainPages(m, root, ch);
    hide Place, IsChain, ScanChain;
    var key := data[..KEY_SIZE];
    PlaceNotDuplicate(m, ch, data, xid, supply);
    ScanChainReadable(m, ch, 0, key);
    ScanChainClear(m, ch, 0, key);
    assert ch[0..] == ch;
    if ScanChain(m, ch, 0, key).Clear? {
      forall t | RowIn(m, ch, t)
        ensures !HasKey(TupleAt(m, t).data, key)
      {
        assert ClearAt(m, ch, t, key);
      }
    } else {
      var t :| !ClearAt(m, ch, t, key);
      assert RowIn(m, ch, t) && HasKey(TupleAt(m, t).data, key);
    }
  }

  lemma PlaceNotDuplicate(m: Pages, ch: seq<PageId>, data: seq<byte>, xid: nat, supply: seq<PageId>)
    requires ch != [] && forall i | 0 <= i < |ch| :: ch[i] in m
    ensures Place(m, ch, data, xid, supply).err in {0, EINVAL, ENOSPC}
  {
  }

  /** A row of this many bytes fits between the slots and the tuples of the page. */
  predicate Fits(p: Page, len: nat) { Lower(|p.slots|) + 33 + len <= p.upper }

  /** The row is in the `j`-th page of the chain, in its next slot, and fits no earlier page. */
  predicate WentTo(m: Pages, ch: seq<PageId>, len: nat, f: Final, j: nat)
    requires j < |ch| && forall i | 0 <= i < |ch| :: ch[i] in m
  {
    && Fits(m[ch[j]], len) && (forall i | 0 <= i < j :: !Fits(m[ch[i]], len))
    && f.at == Tid(ch[j], |m[ch[j]].slots|) && !f.grew
  }

  /** No row is too long to be read, and none has the key. */
  ghost predicate NoneHas(m: Pages, ch: seq<PageId>, key: seq<byte>) {
    forall t | RowIn(m, ch, t) :: |TupleAt(m, t).data| <= SCAN_BUF && !HasKey(TupleAt(m, t).data, key)
  }

  /** Over readable rows without its key, a row is taken exactly when some page has room for
      it, or a page is supplied and it fits an empty one; it goes to the first page with
      room, or else to the new page, and is there afterwards. */
  lemma InsertTaken(m: Pages, root: PageId, ch: seq<PageId>, data: seq<byte>, xid: nat, supply: seq<PageId>)
    requires IsChain(m, root, ch) && Supplied(m, supply) && KEY_SIZE <= |data| <= 8192 && NoneHas(m, ch, data[..KEY_SIZE])
    requires forall i | 0 <= i < |ch| :: ch[i] in m
    ensures var f, room := InsertRow(m, ch, data, xid, supply), exists j | 0 <= j < |ch| :: Fits(m[ch[j]], |data|);
      && (f.err == 0 <==> room || (supply != [] && |data| <= 8102))
      && (f.err == 0 && room ==> exists j | 0 <= j < |ch| :: WentTo(m, ch, |data|, f, j))
      && (f.err == 0 && !room ==> f.grew && f.at == Tid(supply[0], 0))
      && (f.err == 0 ==> RowIn(f.pages, ChainAfter(ch, f), f.at) && TupleAt(f.pages, f.at) == Tuple(xid, 0, 0, data))
      && (f.err != 0 ==> f.err == ENOSPC)
  {
    var key := data[..KEY_SIZE];
    ScanChainClear(m, ch, 0, key);
    assert ch[0..] == ch;
    assert AllClear(m, ch, key) by {
      forall t
        ensures ClearAt(m, ch, t, key)
      {
      }
    }
    hide ScanChain, IsChain, NoneHas, RowIn, HasKey;
    FirstFits(m, ch, 0, |data|);
    hide FirstRoom;
    var f, j := InsertRow(m, ch, data, xid, supply), FirstRoom(m, ch, 0, |data|);
    PlaceAddsOneRow(m, root, ch, data, xid, supply, f.at);
    if j < |ch| {
      assert WentTo(m, ch, |data|, f, j);
    }
  }

  lemma {:induction false} FirstFits(m: Pages, ch: seq<PageId>, k: nat, len: nat)
    requires forall i | 0 <= i < |ch| :: ch[i] in m
    requires k <= |ch|
    ensures var j := FirstRoom(m, ch, k, len);
      (j < |ch| ==> Fits(m[ch[j]], len)) && forall i | k <= i < j :: !Fits(m[ch[i]], len)
    decreases |ch| - k
  {
    if k < |ch| && !HasRoom(m[ch[k]], len) {
      FirstFits(m, ch, k + 1, len);
    }
  }

  /** The first row of the table that is not clear decides, whatever comes behind it: a row
      that the scan cannot read ends the insert with `ENOSPC`, one with the key with `EEXIST`. */
  lemma FirstDecides(m: Pages, root: PageId, ch: seq<PageId>, data: seq<byte>, xid: nat, supply: seq<PageId>, k: nat, j: nat)
    requires IsChain(m, root, ch) && KEY_SIZE <= |data| && k < |ch|
    requires forall i | 0 <= i < |ch| :: ch[i] in m
    requires j < |m[ch[k]].slots| && m[ch[k]].slots[j].Live?
    requires AllClear(m, ch[..k], data[..KEY_SIZE]) && forall i | 0 <= i < j :: ClearAt(m, ch, Tid(ch[k], i), data[..KEY_SIZE])
    ensures var f, row := InsertRow(m, ch, data, xid, supply), m[ch[k]].slots[j].tuple.data;
      && (|row| > 256 ==> f.err == ENOSPC && f.pages == m)
      && (8 <= |row| <= 256 && row[..8] == data[..8] ==> f.err == EEXIST && f.pages == m)
  {
    var key, v := data[..KEY_SIZE], JudgeSlot(m[ch[k]].slots[j], data[..KEY_SIZE]);
    if !v.Clear? {
      forall i | 0 <= i < j
        ensures JudgeSlot(m[ch[k]].slots[i], key).Clear?
      {
        assert ClearAt(m, ch, Tid(ch[k], i), key);
      }
      FirstSlot(m[ch[k]].slots, 0, j, key);
      FirstPage(m, ch, 0, k, key);
    }
  }

  lemma {:induction false} FirstSlot(slots: seq<Slot>, i: nat, j: nat, key: seq<byte>)
    requires i <= j < |slots| && !JudgeSlot(slots[j], key).Clear? && forall n | i <= n < j :: JudgeSlot(slots[n], key).Clear?
    ensures ScanSlots(slots, i, key) == JudgeSlot(slots[j], key)
    decreases j - i
  {
    hide JudgeSlot;
    if i < j {
      FirstSlot(slots, i + 1, j, key);
    }
  }

  lemma {:induction false} FirstPage(m: Pages, ch: seq<PageId>, i: nat, k: nat, key: seq<byte>)
    requires forall n | 0 <= n < |ch| :: ch[n] in m
    requires i <= k < |ch| && AllClear(m, ch[..k], key) && !ScanSlots(m[ch[k]].slots, 0, key).Clear?
    ensures ScanChain(m, ch, i, key) == ScanSlots(m[ch[k]].slots, 0, key)
    decreases k - i
  {
    hide JudgeSlot, AllClear;
    if i < k {
      PageOfClear(m, ch[..k], i, key);
      ScanSlotsFinds(m[ch[i]].slots, 0, key);
      FirstPage(m, ch, i + 1, k, key);
    }
  }

  lemma PageOfClear(m: Pages, ch: seq<PageId>, i: nat, key: seq<byte>)
    requires i < |ch| && ch[i] in m && AllClear(m, ch, key)
    ensures SlotsClear(m[ch[i]].slots, key)
  {
    hide JudgeSlot;
    forall j | 0 <= j < |m[ch[i]].slots|
      ensures JudgeSlot(m[ch[i]].slots[j], key).Clear?
    {
      assert ClearAt(m, ch, Tid(ch[i], j), key);
      DeadClear(m[ch[i]].slots[j], key);
    }
  }

  /** Rows too long to be read back by the scan are accepted all the same, by any table
      whose scan is clear and that has room. */
  lemma LongRowAccepted(m: Pages, root: PageId, ch: seq<PageId>, data: seq<byte>, xid: nat, supply: seq<PageId>)
    requires IsChain(m, root, ch) && Supplied(m, supply) && SCAN_BUF < |data| <= PAGE_SIZE
    requires forall i | 0 <= i < |ch| :: ch[i] in m
    requires ScanChain(m, ch, 0, data[..KEY_SIZE]).Clear?
    ensures var f := InsertRow(m, ch, data, xid, supply);
      f.err == 0 <==> (exists j | 0 <= j < |ch| :: Fits(m[ch[j]], |data|)) || (supply != [] && |data| <= 8102)
  {
    FirstFits(m, ch, 0, |data|);
  }

  /** From an empty table: a long row goes in, and no insert after it succeeds. */
  lemma LongRowPoisons(data: seq<byte>, xid: nat, next: seq<byte>, xid': nat, supply: seq<PageId>)
    requires SCAN_BUF < |data| <= 8000
    ensures var f := InsertRow(map[1 := EmptyPage], [1], data, xid, []);
      && f.err == 0 && !f.grew && IsChain(f.pages, 1, [1]) && RowIn(f.pages, [1], f.at)
      && var g := InsertRow(f.pages, [1], next, xid', supply); g.err != 0 && g.pages == f.pages
  {
    var m := map[1 := EmptyPage];
    assert Link(m, [1], 0);
    assert ScanChain(m, [1], 0, data[..KEY_SIZE]).Clear?;
    assert FirstRoom(m, [1], 0, |data|) == 0;
    var f := InsertRow(m, [1], data, xid, []);
    PlaceKeepsChain(m, 1, [1], data, xid, []);
    PlaceAddsOneRow(m, 1, [1], data, xid, [], f.at);
    LongRowBlocks(f.pages, 1, [1], f.at, next, xid', supply);
  }

  /** A row too long to be read back by the scan stops every insert: the scan never
      comes out clear again. */
  lemma LongRowBlocks(m: Pages, root: PageId, ch: seq<PageId>, t: Tid, data: seq<byte>, xid: nat, supply: seq<PageId>)
    requires IsChain(m, root, ch) && RowIn(m, ch, t) && |TupleAt(m, t).data| > SCAN_BUF
    requires forall i | 0 <= i < |ch| :: ch[i] in m
    ensures var f := InsertRow(m, ch, data, xid, supply); f.err != 0 && f.pages == m
  {
    hide Place, ScanChain;
    if |data| >= KEY_SIZE {
      ScanChainClear(m, ch, 0, data[..KEY_SIZE]);
      assert ch[0..] == ch;
      assert !ClearAt(m, ch, t, data[..KEY_SIZE]);
    }
  }
}
