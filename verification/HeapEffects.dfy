/** Each write to a heap page, as an effect on the list of tuples it stands for. */
module HeapEffects {
  import opened Bytes
  import opened HeapLayout

  // --------------------------------------------- specification of the page

  function Free(p: Page): int { p.upper - Lower(|p.slots|) }

  predicate HasRoom(p: Page, len: nat) { SLOT_SIZE + TUPLE_HDR + len <= Free(p) }

  function Inserted(p: Page, t: Tuple): Page
    requires HasRoom(p, |t.data|)
  {
    Page(p.slots + [Live(t, |t.data|)], p.upper - TUPLE_HDR - |t.data|, p.next)
  }

  predicate IsLive(p: Page, i: nat) { i < |p.slots| && p.slots[i].Live? }

  function Overwritten(p: Page, i: nat, t: Tuple): Page
    requires IsLive(p, i)
  {
    p.(slots := p.slots[i := Live(t, p.slots[i].cap)])
  }

  function Retired(p: Page, i: nat): Page
    requires i < |p.slots|
  {
    p.(slots := p.slots[i := Dead])
  }

  function Deleted(p: Page, i: nat, xmax: nat): Page
    requires IsLive(p, i)
  {
    Overwritten(p, i, p.slots[i].tuple.(xmax := xmax))
  }

  // --------------------------------------------------- what a write leaves

  lemma SlotKept(b: seq<byte>, b': seq<byte>, i: nat)
    requires WellFormed(b) && |b'| == PAGE_SIZE && i < NrSlots(b) && UpperOf(b') <= UpperOf(b)
    requires b'[Lower(i)..Lower(i + 1)] == b[Lower(i)..Lower(i + 1)]
    requires var r := SlotAt(b, i); r.IsDead() || (Placed(b, r, UpperOf(b)) && b'[r.offset..r.offset + r.length] == b[r.offset..r.offset + r.length])
    ensures SlotAt(b', i) == SlotAt(b, i) && SlotOk(b', i) && SlotView(b', i) == SlotView(b, i)
  {
    hide Nat, WellFormed;
  }

  lemma SlotPlaced(b: seq<byte>, i: nat)
    requires WellFormed(b) && i < NrSlots(b)
    ensures |b| == PAGE_SIZE && Lower(i + 1) <= Lower(NrSlots(b)) <= UpperOf(b) <= NEXT_OFF
    ensures SlotAt(b, i).IsDead() || Placed(b, SlotAt(b, i), UpperOf(b))
  {
    assert SlotOk(b, i);
  }

  lemma MetaRead(b: seq<byte>, n: nat, lower: nat, upper: nat)
    requires |b| == PAGE_SIZE && b[META_OFF..META_OFF + 8] == MetaBytes(n, lower, upper)
    requires n < 0x1_0000 && lower < 0x1_0000 && upper < 0x1_0000
    ensures NrSlots(b) == n && LowerOf(b) == lower && UpperOf(b) == upper
  {
    MetaRoundTrip(n, lower, upper);
    SubSlice(b, META_OFF, META_OFF + 8, 0, 2);
    SubSlice(b, META_OFF, META_OFF + 8, 2, 4);
    SubSlice(b, META_OFF, META_OFF + 8, 4, 6);
  }

  lemma SubSlice(b: seq<byte>, from: nat, to: nat, x: nat, y: nat)
    requires from <= to <= |b| && x <= y <= to - from
    ensures b[from..to][x..y] == b[from + x..from + y]
  {
    var s, r := b[from..to][x..y], b[from + x..from + y];
    assert |s| == |r|;
    forall k | 0 <= k < |r|
      ensures s[k] == r[k]
    {
      assert b[from..to][x + k] == b[from + x + k];
    }
  }

  // ------------------------------------------------------------- inserting

  function InsertBytes(b: seq<byte>, t: Tuple): (r: seq<byte>)
    requires |b| == PAGE_SIZE && Lower(NrSlots(b) + 1) + TUPLE_HDR + |t.data| <= UpperOf(b) <= NEXT_OFF
    ensures |r| == PAGE_SIZE
  {
    var n, top := NrSlots(b), UpperOf(b) - TUPLE_HDR - |t.data|;
    var b1 := Splice(b, top, TupleHdrBytes(t));
    var b2 := Splice(b1, top + TUPLE_HDR, t.data);
    var b3 := Splice(b2, Lower(n), SlotBytes(RawSlot(top, TUPLE_HDR + |t.data|, 0)));
    Splice(b3, META_OFF, MetaBytes(n + 1, Lower(n + 1), top))
  }

  lemma InsertReads(b: seq<byte>, t: Tuple)
    requires |b| == PAGE_SIZE && Lower(NrSlots(b) + 1) + TUPLE_HDR + |t.data| <= UpperOf(b) <= NEXT_OFF
    ensures var n, top := NrSlots(b), UpperOf(b) - TUPLE_HDR - |t.data|; var r := InsertBytes(b, t);
      && r[META_OFF..META_OFF + 8] == MetaBytes(n + 1, Lower(n + 1), top)
      && r[Lower(n)..Lower(n + 1)] == SlotBytes(RawSlot(top, TUPLE_HDR + |t.data|, 0))
      && r[top..UpperOf(b)][..TUPLE_HDR] == TupleHdrBytes(t) && r[top..UpperOf(b)][TUPLE_HDR..TUPLE_HDR + |t.data|] == t.data
  {
    hide Nat, NrSlots, UpperOf, TupleHdrBytes, SlotBytes, MetaBytes;
    var n, top := NrSlots(b), UpperOf(b) - TUPLE_HDR - |t.data|;
    var b1 := Splice(b, top, TupleHdrBytes(t));
    var b2 := Splice(b1, top + TUPLE_HDR, t.data);
    var b3 := Splice(b2, Lower(n), SlotBytes(RawSlot(top, TUPLE_HDR + |t.data|, 0)));
    var r := Splice(b3, META_OFF, MetaBytes(n + 1, Lower(n + 1), top));
    hide Splice;
    SpliceElsewhere(b1, top + TUPLE_HDR, t.data, top, top + TUPLE_HDR);
    SpliceElsewhere(b2, Lower(n), SlotBytes(RawSlot(top, TUPLE_HDR + |t.data|, 0)), top, UpperOf(b));
    SpliceElsewhere(b3, META_OFF, MetaBytes(n + 1, Lower(n + 1), top), top, UpperOf(b));
    SpliceElsewhere(b3, META_OFF, MetaBytes(n + 1, Lower(n + 1), top), Lower(n), Lower(n + 1));
    assert r[top..UpperOf(b)] == b2[top..UpperOf(b)];
    SubSlice(b2, top, UpperOf(b), 0, TUPLE_HDR);
    SubSlice(b2, top, UpperOf(b), TUPLE_HDR, TUPLE_HDR + |t.data|);
  }

  /** Everything outside the new tuple, the new slot and the meta data is kept. */
  lemma InsertElsewhere(b: seq<byte>, t: Tuple, from: nat, to: nat)
    requires |b| == PAGE_SIZE && Lower(NrSlots(b) + 1) + TUPLE_HDR + |t.data| <= UpperOf(b) <= NEXT_OFF
    requires to <= META_OFF || (AREA_OFF <= from && to <= Lower(NrSlots(b))) || UpperOf(b) <= from
    requires from <= to <= PAGE_SIZE
    ensures InsertBytes(b, t)[from..to] == b[from..to]
  {
    hide Nat, NrSlots, UpperOf, TupleHdrBytes, SlotBytes, MetaBytes, Splice;
    var n, top := NrSlots(b), UpperOf(b) - TUPLE_HDR - |t.data|;
    FourElsewhere(b, top, TupleHdrBytes(t), top + TUPLE_HDR, t.data, Lower(n), SlotBytes(RawSlot(top, TUPLE_HDR + |t.data|, 0)),
                  META_OFF, MetaBytes(n + 1, Lower(n + 1), top), from, to);
  }

  /** The same for four writes. */
  lemma FourElsewhere(b: seq<byte>, i: nat, w: seq<byte>, j: nat, x: seq<byte>, k: nat, y: seq<byte>, l: nat, z: seq<byte>, from: nat, to: nat)
    requires i + |w| <= |b| && j + |x| <= |b| && k + |y| <= |b| && l + |z| <= |b| && from <= to <= |b|
    requires to <= i || i + |w| <= from
    requires to <= j || j + |x| <= from
    requires to <= k || k + |y| <= from
    requires to <= l || l + |z| <= from
    ensures Splice(Splice(Splice(Splice(b, i, w), j, x), k, y), l, z)[from..to] == b[from..to]
  {
    var b1 := Splice(b, i, w);
    var b2 := Splice(b1, j, x);
    var b3 := Splice(b2, k, y);
    hide Splice;
    SpliceElsewhere(b, i, w, from, to);
    SpliceElsewhere(b1, j, x, from, to);
    SpliceElsewhere(b2, k, y, from, to);
    SpliceElsewhere(b3, l, z, from, to);
  }

  lemma InsertNewSlot(b: seq<byte>, t: Tuple)
    requires WellFormed(b) && Fits64(t) && HasRoom(View(b), |t.data|)
    ensures var n, top, r := NrSlots(b), UpperOf(b) - TUPLE_HDR - |t.data|, InsertBytes(b, t);
      && NrSlots(r) == n + 1 && LowerOf(r) == Lower(n + 1) && UpperOf(r) == top && NextOf(r) == NextOf(b)
      && SlotAt(r, n) == RawSlot(top, TUPLE_HDR + |t.data|, 0) && SlotOk(r, n) && SlotView(r, n) == Live(t, |t.data|)
  {
    hide Nat, WellFormed, View, DecodeSlot, InsertBytes, TupleHdrBytes;
    SlotBound(b);
    MetaBounds(b);
    var n, top, r := NrSlots(b), UpperOf(b) - TUPLE_HDR - |t.data|, InsertBytes(b, t);
    InsertReads(b, t);
    MetaRead(r, n + 1, Lower(n + 1), top);
    SlotRoundTrip(RawSlot(top, TUPLE_HDR + |t.data|, 0));
    TupleRoundTrip(t, r[top..UpperOf(b)]);
    InsertElsewhere(b, t, NEXT_OFF, PAGE_SIZE);
  }

  lemma MetaBounds(b: seq<byte>)
    requires WellFormed(b)
    ensures |b| == PAGE_SIZE && LowerOf(b) == Lower(NrSlots(b)) <= UpperOf(b) <= NEXT_OFF - TUPLE_HDR * NrSlots(b)
  {
  }

  /** A page put together slot by slot. */
  lemma Assemble(b: seq<byte>, slots: seq<Slot>)
    requires |b| == PAGE_SIZE && Meta(b) && NrSlots(b) == |slots|
    requires forall i | 0 <= i < |slots| :: SlotOk(b, i) && SlotView(b, i) == slots[i]
    requires forall i, j | 0 <= i < j < |slots| :: Disjoint(SlotAt(b, i), SlotAt(b, j))
    ensures WellFormed(b) && View(b) == Page(slots, UpperOf(b), NextOf(b))
  {
    hide Nat, SlotView, SlotAt, SlotOk, Disjoint, NrSlots, LowerOf, UpperOf, NextOf;
    assert View(b).slots == slots;
  }

  lemma Disassemble(b: seq<byte>)
    requires WellFormed(b)
    ensures |View(b).slots| == NrSlots(b) <= 246
    ensures forall i | 0 <= i < NrSlots(b) :: SlotOk(b, i) && View(b).slots[i] == SlotView(b, i)
    ensures forall i, j | 0 <= i < j < NrSlots(b) :: Disjoint(SlotAt(b, i), SlotAt(b, j))
  {
    SlotBound(b);
  }

  lemma InsertOldSlot(b: seq<byte>, t: Tuple, i: nat)
    requires WellFormed(b) && Fits64(t) && HasRoom(View(b), |t.data|) && i < NrSlots(b)
    ensures var r := InsertBytes(b, t);
      SlotAt(r, i) == SlotAt(b, i) && SlotOk(r, i) && SlotView(r, i) == SlotView(b, i)
      && Disjoint(SlotAt(b, i), RawSlot(UpperOf(b) - TUPLE_HDR - |t.data|, TUPLE_HDR + |t.data|, 0))
  {
    hide Nat, WellFormed, View, InsertBytes, DataLen;
    SlotBound(b);
    MetaBounds(b);
    SlotPlaced(b, i);
    InsertNewSlot(b, t);
    InsertElsewhere(b, t, Lower(i), Lower(i + 1));
    var s := SlotAt(b, i);
    if !s.IsDead() {
      InsertElsewhere(b, t, s.offset, s.offset + s.length);
    }
    SlotKept(b, InsertBytes(b, t), i);
  }

  /** The first `n` slots are the same. */
  ghost predicate SlotsKept(b: seq<byte>, r: seq<byte>, n: nat) {
    |b| == |r| == PAGE_SIZE && forall i | 0 <= i < n :: Lower(i + 1) <= PAGE_SIZE && SlotAt(r, i) == SlotAt(b, i)
  }

  lemma InsertKeepsSlots(b: seq<byte>, t: Tuple)
    requires WellFormed(b) && Fits64(t) && HasRoom(View(b), |t.data|)
    ensures SlotsKept(b, InsertBytes(b, t), NrSlots(b))
  {
    hide WellFormed, View, InsertBytes, SlotAt, Nat, NrSlots, LowerOf, UpperOf, NextOf;
    MetaBounds(b);
    Disassemble(b);
    SlotBound(b);
    forall i | 0 <= i < NrSlots(b)
      ensures Lower(i + 1) <= PAGE_SIZE && SlotAt(InsertBytes(b, t), i) == SlotAt(b, i)
    {
      InsertOldSlot(b, t, i);
    }
  }

  /** An insert that has room adds its tuple in a new slot and changes nothing else. */
  lemma InsertEffect(b: seq<byte>, t: Tuple)
    requires WellFormed(b) && Fits64(t) && HasRoom(View(b), |t.data|)
    ensures WellFormed(InsertBytes(b, t)) && View(InsertBytes(b, t)) == Inserted(View(b), t)
    ensures InsertBytes(b, t)[..META_OFF] == b[..META_OFF]
  {
    hide WellFormed, View, InsertBytes, SlotView, SlotAt, SlotOk, Disjoint, NrSlots, LowerOf, UpperOf, NextOf, Nat;
    MetaBounds(b);
    Disassemble(b);
    var n, r, slots := NrSlots(b), InsertBytes(b, t), View(b).slots + [Live(t, |t.data|)];
    InsertNewSlot(b, t);
    InsertElsewhere(b, t, 0, META_OFF);
    forall i | 0 <= i < n
      ensures SlotAt(r, i) == SlotAt(b, i) && SlotOk(r, i) && SlotView(r, i) == slots[i] && Disjoint(SlotAt(r, i), SlotAt(r, n))
    {
      InsertOldSlot(b, t, i);
    }
    Assemble(r, slots);
  }

  // ------------------------------------------- rewriting inside a page

  predicate SameOutside(b: seq<byte>, b': seq<byte>, from: nat, to: nat) {
    && |b| == |b'| == PAGE_SIZE && from <= to <= PAGE_SIZE
    && b'[..from] == b[..from] && b'[to..] == b[to..]
  }

  lemma SameRange(b: seq<byte>, b': seq<byte>, from: nat, to: nat, x: nat, y: nat)
    requires SameOutside(b, b', from, to) && x <= y <= PAGE_SIZE && (y <= from || to <= x)
    ensures b'[x..y] == b[x..y]
  {
    if y <= from {
      assert b'[x..y] == b'[..from][x..y] && b[x..y] == b[..from][x..y];
    } else {
      SubSlice(b, to, PAGE_SIZE, x - to, y - to);
      SubSlice(b', to, PAGE_SIZE, x - to, y - to);
      assert b[to..] == b[to..PAGE_SIZE] && b'[to..] == b'[to..PAGE_SIZE];
    }
  }

  /** A change above the meta data and below the link leaves both as they were. */
  lemma MetaKept(b: seq<byte>, b': seq<byte>, from: nat, to: nat)
    requires SameOutside(b, b', from, to) && AREA_OFF <= from && to <= NEXT_OFF
    ensures |b'| == PAGE_SIZE
    ensures NrSlots(b') == NrSlots(b) && LowerOf(b') == LowerOf(b) && UpperOf(b') == UpperOf(b) && NextOf(b') == NextOf(b)
    ensures b'[..META_OFF] == b[..META_OFF]
  {
    assert |b| == PAGE_SIZE && |b'| == PAGE_SIZE;
    hide Nat, SameOutside;
    SameRange(b, b', from, to, 0, META_OFF);
    SameRange(b, b', from, to, META_OFF, META_OFF + 2);
    SameRange(b, b', from, to, META_OFF + 2, META_OFF + 4);
    SameRange(b, b', from, to, META_OFF + 4, META_OFF + 6);
    SameRange(b, b', from, to, NEXT_OFF, PAGE_SIZE);
  }

  /** Rewriting the reservation of slot `i` leaves slot `j` alone. */
  lemma RewriteOther(b: seq<byte>, b': seq<byte>, i: nat, j: nat)
    requires WellFormed(b) && i < NrSlots(b) && j < NrSlots(b) && i != j && !SlotAt(b, i).IsDead()
    requires var r := SlotAt(b, i); SameOutside(b, b', r.offset, r.offset + r.length)
    ensures SlotAt(b', j) == SlotAt(b, j) && SlotOk(b', j) && SlotView(b', j) == SlotView(b, j)
  {
    hide Nat, WellFormed, SameOutside, DecodeSlot, DataLen, SlotView;
    SlotPlaced(b, i);
    SlotPlaced(b, j);
    Apart(b, i, j);
    var r, q := SlotAt(b, i), SlotAt(b, j);
    MetaKept(b, b', r.offset, r.offset + r.length);
    SameRange(b, b', r.offset, r.offset + r.length, Lower(j), Lower(j + 1));
    if !q.IsDead() {
      SameRange(b, b', r.offset, r.offset + r.length, q.offset, q.offset + q.length);
    }
    SlotKept(b, b', j);
  }

  lemma Apart(b: seq<byte>, i: nat, j: nat)
    requires WellFormed(b) && i < NrSlots(b) && j < NrSlots(b) && i != j
    ensures Disjoint(SlotAt(b, i), SlotAt(b, j))
  {
    hide Nat, SlotAt, SlotOk;
    if i < j {
      assert Disjoint(SlotAt(b, i), SlotAt(b, j));
    } else {
      assert Disjoint(SlotAt(b, j), SlotAt(b, i));
    }
  }

  lemma RewriteOwn(b: seq<byte>, b': seq<byte>, i: nat, t: Tuple)
    requires WellFormed(b) && i < NrSlots(b) && !SlotAt(b, i).IsDead()
    requires var r := SlotAt(b, i); SameOutside(b, b', r.offset, r.offset + r.length)
    requires var r := SlotAt(b, i); Placed(b', r, UpperOf(b)) && DecodeTuple(b'[r.offset..r.offset + r.length]) == t
    ensures |b'| == PAGE_SIZE
    ensures SlotAt(b', i) == SlotAt(b, i) && SlotOk(b', i) && SlotView(b', i) == Live(t, SlotAt(b, i).length - TUPLE_HDR)
    ensures NrSlots(b') == NrSlots(b) && LowerOf(b') == LowerOf(b) && UpperOf(b') == UpperOf(b) && NextOf(b') == NextOf(b)
    ensures b'[..META_OFF] == b[..META_OFF]
  {
    hide Nat, WellFormed, SameOutside, DecodeSlot, DataLen, DecodeTuple;
    SlotPlaced(b, i);
    var r := SlotAt(b, i);
    MetaKept(b, b', r.offset, r.offset + r.length);
    SameRange(b, b', r.offset, r.offset + r.length, Lower(i), Lower(i + 1));
  }

  /** A page whose slots changed at `i` only. */
  lemma OneSlotChanged(b: seq<byte>, b': seq<byte>, i: nat, s: Slot)
    requires WellFormed(b) && i < NrSlots(b) && |b'| == PAGE_SIZE
    requires NrSlots(b') == NrSlots(b) && LowerOf(b') == LowerOf(b) && UpperOf(b') == UpperOf(b) && NextOf(b') == NextOf(b)
    requires Lower(NrSlots(b)) <= PAGE_SIZE
    requires forall j | 0 <= j < NrSlots(b) && j != i :: SlotAt(b', j) == SlotAt(b, j) && SlotOk(b', j) && SlotView(b', j) == SlotView(b, j)
    requires SlotAt(b', i) == SlotAt(b, i) || SlotAt(b', i).IsDead()
    requires SlotOk(b', i) && SlotView(b', i) == s
    ensures WellFormed(b') && View(b') == View(b).(slots := View(b).slots[i := s])
  {
    hide WellFormed, View, SlotView, SlotAt, SlotOk, NrSlots, LowerOf, UpperOf, NextOf, Nat;
    MetaBounds(b);
    Disassemble(b);
    Assemble(b', View(b).slots[i := s]);
  }

  /** Rewriting a reservation rewrites the tuple in it and nothing else. */
  lemma RewriteEffect(b: seq<byte>, b': seq<byte>, i: nat, t: Tuple)
    requires WellFormed(b) && IsLive(View(b), i)
    requires var r := SlotAt(b, i); SameOutside(b, b', r.offset, r.offset + r.length)
    requires var r := SlotAt(b, i); Placed(b', r, UpperOf(b)) && DecodeTuple(b'[r.offset..r.offset + r.length]) == t
    ensures WellFormed(b') && View(b') == Overwritten(View(b), i, t)
    ensures b'[..META_OFF] == b[..META_OFF]
  {
    hide WellFormed, View, SlotAt, SlotOk, NrSlots, LowerOf, UpperOf, NextOf, Nat, Placed, DecodeTuple, SameOutside;
    MetaBounds(b);
    Disassemble(b);
    assert View(b).slots[i] == SlotView(b, i);
    RewriteOwn(b, b', i, t);
    forall j | 0 <= j < NrSlots(b) && j != i
      ensures SlotAt(b', j) == SlotAt(b, j) && SlotOk(b', j) && SlotView(b', j) == SlotView(b, j)
    {
      RewriteOther(b, b', i, j);
    }
    OneSlotChanged(b, b', i, Live(t, SlotAt(b, i).length - TUPLE_HDR));
  }

  lemma SpliceOutside(b: seq<byte>, at: nat, s: seq<byte>, from: nat, to: nat)
    requires |b| == PAGE_SIZE && from <= at && at + |s| <= to <= PAGE_SIZE
    ensures SameOutside(b, Splice(b, at, s), from, to)
  {
    SpliceElsewhere(b, at, s, 0, from);
    SpliceElsewhere(b, at, s, to, PAGE_SIZE);
    var r := Splice(b, at, s);
    hide Splice;
    assert b[to..] == b[to..PAGE_SIZE] && r[to..] == r[to..PAGE_SIZE];
  }

  lemma SameTrans(a: seq<byte>, b: seq<byte>, c: seq<byte>, from: nat, to: nat)
    requires SameOutside(a, b, from, to) && SameOutside(b, c, from, to)
    ensures SameOutside(a, c, from, to)
  {
  }

  function OverwriteBytes(b: seq<byte>, r: RawSlot, t: Tuple): (b': seq<byte>)
    requires |b| == PAGE_SIZE && r.offset + TUPLE_HDR + |t.data| <= PAGE_SIZE
    ensures |b'| == PAGE_SIZE
  {
    Splice(Splice(b, r.offset, TupleHdrBytes(t)), r.offset + TUPLE_HDR, t.data)
  }

  lemma OverwriteReads(b: seq<byte>, r: RawSlot, t: Tuple)
    requires |b| == PAGE_SIZE && TUPLE_HDR + |t.data| <= r.length && r.offset + r.length <= PAGE_SIZE
    ensures SameOutside(b, OverwriteBytes(b, r, t), r.offset, r.offset + r.length)
    ensures var s := OverwriteBytes(b, r, t)[r.offset..r.offset + r.length];
      s[..TUPLE_HDR] == TupleHdrBytes(t) && s[TUPLE_HDR..TUPLE_HDR + |t.data|] == t.data
  {
    hide TupleHdrBytes, Nat;
    var from, to := r.offset, r.offset + r.length;
    var b1 := Splice(b, from, TupleHdrBytes(t));
    var b2 := Splice(b1, from + TUPLE_HDR, t.data);
    hide Splice;
    SpliceOutside(b, from, TupleHdrBytes(t), from, to);
    SpliceOutside(b1, from + TUPLE_HDR, t.data, from, to);
    SameTrans(b, b1, b2, from, to);
    SpliceElsewhere(b1, from + TUPLE_HDR, t.data, from, from + TUPLE_HDR);
    hide SameOutside;
    SubSlice(b2, from, to, 0, TUPLE_HDR);
    SubSlice(b2, from, to, TUPLE_HDR, TUPLE_HDR + |t.data|);
  }

  /** An overwrite that fits the reservation replaces its tuple and nothing else. */
  lemma OverwriteEffect(b: seq<byte>, i: nat, t: Tuple)
    requires WellFormed(b) && IsLive(View(b), i) && Fits64(t) && |t.data| <= View(b).slots[i].cap
    ensures var r := SlotAt(b, i); r.offset + TUPLE_HDR + |t.data| <= PAGE_SIZE
    ensures var b' := OverwriteBytes(b, SlotAt(b, i), t);
      WellFormed(b') && View(b') == Overwritten(View(b), i, t) && b'[..META_OFF] == b[..META_OFF]
  {
    hide WellFormed, View, NrSlots, LowerOf, UpperOf, NextOf, Nat, DecodeTuple, SameOutside, OverwriteBytes, TupleHdrBytes, SlotAt;
    LiveSlot(b, i);
    var r := SlotAt(b, i);
    OverwriteReads(b, r, t);
    TupleRoundTrip(t, OverwriteBytes(b, r, t)[r.offset..r.offset + r.length]);
    RewriteEffect(b, OverwriteBytes(b, r, t), i, t);
  }

  lemma LiveSlot(b: seq<byte>, i: nat)
    requires WellFormed(b) && i < |View(b).slots|
    ensures |b| == PAGE_SIZE && i < NrSlots(b) && Lower(i + 1) <= PAGE_SIZE
    ensures SlotAt(b, i).IsDead() <==> View(b).slots[i].Dead?
    ensures IsLive(View(b), i) ==> var r := SlotAt(b, i);
      && Placed(b, r, UpperOf(b)) && r.length < 0x1_0000
      && View(b).slots[i] == Live(DecodeTuple(b[r.offset..r.offset + r.length]), r.length - TUPLE_HDR)
  {
    hide Nat, DecodeTuple, SlotAt, DataLen;
    MetaBounds(b);
    SlotPlaced(b, i);
    assert View(b).slots[i] == SlotView(b, i);
  }

  // ------------------------------------------------- ending a tuple version

  /** Stamping `xmax` keeps everything else of the tuple. */
  lemma DeleteEffect(b: seq<byte>, i: nat, xmax: nat)
    requires WellFormed(b) && IsLive(View(b), i) && xmax < 0x1_0000_0000_0000_0000
    ensures SlotAt(b, i).offset + 16 <= PAGE_SIZE
    ensures var b' := Splice(b, SlotAt(b, i).offset + 8, Le(xmax, 8));
      WellFormed(b') && View(b') == Deleted(View(b), i, xmax) && b'[..META_OFF] == b[..META_OFF]
  {
    hide WellFormed, View, NrSlots, LowerOf, UpperOf, NextOf, Nat, SameOutside, SlotAt, DecodeTuple, Splice;
    LiveSlot(b, i);
    var r := SlotAt(b, i);
    var b' := Splice(b, r.offset + 8, Le(xmax, 8));
    SpliceOutside(b, r.offset + 8, Le(xmax, 8), r.offset, r.offset + r.length);
    StampedTuple(b, r.offset, r.offset + r.length, xmax);
    RewriteEffect(b, b', i, View(b).slots[i].tuple.(xmax := xmax));
  }

  lemma StampedTuple(b: seq<byte>, from: nat, to: nat, xmax: nat)
    requires from + TUPLE_HDR <= to <= |b| == PAGE_SIZE && xmax < 0x1_0000_0000_0000_0000
    requires TUPLE_HDR + DataLen(b[from..to]) <= to - from
    ensures var s := Splice(b, from + 8, Le(xmax, 8))[from..to];
      DataLen(s) == DataLen(b[from..to]) && DecodeTuple(s) == DecodeTuple(b[from..to]).(xmax := xmax)
  {
    Widths();
    NatOfLe(xmax, 8);
    hide Nat;
    var b', n := Splice(b, from + 8, Le(xmax, 8)), DataLen(b[from..to]);
    forall x, y | 0 <= x <= y <= to - from && (y <= 8 || 16 <= x)
      ensures b'[from..to][x..y] == b[from..to][x..y]
    {
      SubSlice(b, from, to, x, y);
      SubSlice(b', from, to, x, y);
      SpliceElsewhere(b, from + 8, Le(xmax, 8), from + x, from + y);
    }
    SubSlice(b', from, to, 8, 16);
    hide Splice;
    assert b'[from..to][0..8] == b[from..to][0..8];
    assert b'[from..to][16..24] == b[from..to][16..24];
    assert b'[from..to][24..26] == b[from..to][24..26];
    assert b'[from..to][TUPLE_HDR..TUPLE_HDR + n] == b[from..to][TUPLE_HDR..TUPLE_HDR + n];
    assert b'[from..to][0..8] == b'[from..to][..8] && b[from..to][0..8] == b[from..to][..8];
  }

  /** Retiring a slot kills it and nothing else. */
  lemma RetireEffect(b: seq<byte>, i: nat)
    requires WellFormed(b) && i < |View(b).slots|
    ensures |b| == PAGE_SIZE && Lower(i + 1) <= PAGE_SIZE && SlotAt(b, i).offset < 0x1_0000
    ensures forall flags | 0 <= flags < 256 && flags % 2 == 1 ::
      var b' := Splice(b, Lower(i), SlotBytes(RawSlot(SlotAt(b, i).offset, 0, flags)));
      WellFormed(b') && View(b') == Retired(View(b), i) && b'[..META_OFF] == b[..META_OFF]
  {
    hide WellFormed, View, NrSlots, LowerOf, UpperOf, NextOf, SlotOk, SlotView, Nat, SameOutside, Splice, SlotBytes;
    LiveSlot(b, i);
    MetaBounds(b);
    SlotOffset(b, i);
    forall flags | 0 <= flags < 256 && flags % 2 == 1
      ensures var b' := Splice(b, Lower(i), SlotBytes(RawSlot(SlotAt(b, i).offset, 0, flags)));
        WellFormed(b') && View(b') == Retired(View(b), i) && b'[..META_OFF] == b[..META_OFF]
    {
      RetireOne(b, i, RawSlot(SlotAt(b, i).offset, 0, flags));
    }
  }

  lemma SlotOffset(b: seq<byte>, i: nat)
    requires |b| == PAGE_SIZE && Lower(i + 1) <= PAGE_SIZE
    ensures SlotAt(b, i).offset < 0x1_0000 && SlotAt(b, i).length < 0x1_0000
  {
    Widths();
    hide Nat;
  }

  lemma RetireOne(b: seq<byte>, i: nat, q: RawSlot)
    requires WellFormed(b) && i < |View(b).slots| && q.offset < 0x1_0000 && q.length == 0 && q.flags < 256
    requires |b| == PAGE_SIZE && Lower(i + 1) <= PAGE_SIZE
    ensures var b' := Splice(b, Lower(i), SlotBytes(q));
      WellFormed(b') && View(b') == Retired(View(b), i) && b'[..META_OFF] == b[..META_OFF]
  {
    hide WellFormed, View, NrSlots, LowerOf, UpperOf, NextOf, Nat, SameOutside, Splice, SlotBytes, DecodeSlot, Placed, DecodeTuple;
    LiveSlot(b, i);
    MetaBounds(b);
    var b' := Splice(b, Lower(i), SlotBytes(q));
    SpliceOutside(b, Lower(i), SlotBytes(q), Lower(i), Lower(i + 1));
    MetaKept(b, b', Lower(i), Lower(i + 1));
    SlotRoundTrip(q);
    Disassemble(b);
    forall j | 0 <= j < NrSlots(b) && j != i
      ensures SlotAt(b', j) == SlotAt(b, j) && SlotOk(b', j) && SlotView(b', j) == SlotView(b, j)
    {
      RetireOther(b, b', i, j);
    }
    OneSlotChanged(b, b', i, Dead);
  }

  lemma RetireOther(b: seq<byte>, b': seq<byte>, i: nat, j: nat)
    requires WellFormed(b) && i < NrSlots(b) && j < NrSlots(b) && i != j
    requires SameOutside(b, b', Lower(i), Lower(i + 1))
    ensures SlotAt(b', j) == SlotAt(b, j) && SlotOk(b', j) && SlotView(b', j) == SlotView(b, j)
  {
    hide Nat, WellFormed, SameOutside, DecodeSlot, DataLen, SlotView;
    SlotPlaced(b, i);
    SlotPlaced(b, j);
    var q := SlotAt(b, j);
    MetaKept(b, b', Lower(i), Lower(i + 1));
    SameRange(b, b', Lower(i), Lower(i + 1), Lower(j), Lower(j + 1));
    if !q.IsDead() {
      SameRange(b, b', Lower(i), Lower(i + 1), q.offset, q.offset + q.length);
    }
    SlotKept(b, b', j);
  }

  // ------------------------------------------------------ link and creation

  /** Writing the tail link keeps every slot. */
  lemma LinkEffect(b: seq<byte>, next: nat)
    requires WellFormed(b) && next < 0x1_0000_0000_0000_0000
    ensures |b| == PAGE_SIZE
    ensures var b' := Splice(b, NEXT_OFF, Le(next, 8));
      WellFormed(b') && View(b') == View(b).(next := next) && b'[..META_OFF] == b[..META_OFF]
  {
    hide WellFormed, View, SlotView, SlotAt, SlotOk, Disjoint, Nat, SameOutside, Splice;
    MetaBounds(b);
    Disassemble(b);
    var b' := Splice(b, NEXT_OFF, Le(next, 8));
    Widths();
    NatOfLe(next, 8);
    SpliceOutside(b, NEXT_OFF, Le(next, 8), NEXT_OFF, PAGE_SIZE);
    SameRange(b, b', NEXT_OFF, PAGE_SIZE, 0, META_OFF);
    SameRange(b, b', NEXT_OFF, PAGE_SIZE, META_OFF, META_OFF + 2);
    SameRange(b, b', NEXT_OFF, PAGE_SIZE, META_OFF + 2, META_OFF + 4);
    SameRange(b, b', NEXT_OFF, PAGE_SIZE, META_OFF + 4, META_OFF + 6);
    hide NrSlots, LowerOf, UpperOf;
    forall j | 0 <= j < NrSlots(b)
      ensures SlotAt(b', j) == SlotAt(b, j) && SlotOk(b', j) && SlotView(b', j) == SlotView(b, j)
    {
      LinkOther(b, b', j);
    }
    Assemble(b', View(b).slots);
  }

  lemma LinkOther(b: seq<byte>, b': seq<byte>, j: nat)
    requires WellFormed(b) && j < NrSlots(b) && SameOutside(b, b', NEXT_OFF, PAGE_SIZE)
    requires |b'| == PAGE_SIZE && UpperOf(b') == UpperOf(b)
    ensures SlotAt(b', j) == SlotAt(b, j) && SlotOk(b', j) && SlotView(b', j) == SlotView(b, j)
  {
    hide Nat, WellFormed, SameOutside, DecodeSlot, DataLen, SlotView;
    SlotPlaced(b, j);
    var q := SlotAt(b, j);
    SameRange(b, b', NEXT_OFF, PAGE_SIZE, Lower(j), Lower(j + 1));
    if !q.IsDead() {
      SameRange(b, b', NEXT_OFF, PAGE_SIZE, q.offset, q.offset + q.length);
    }
    SlotKept(b, b', j);
  }

  function InitBytes(b: seq<byte>, hdr: seq<byte>): (r: seq<byte>)
    requires |b| == PAGE_SIZE && |hdr| == META_OFF
    ensures |r| == PAGE_SIZE
  {
    Splice(Splice(Splice(b, 0, hdr), META_OFF, MetaBytes(0, AREA_OFF, NEXT_OFF)), NEXT_OFF, Le(0, 8))
  }

  /** Whatever a frame held, initialising it makes an empty, unlinked page. */
  lemma InitEffect(b: seq<byte>, hdr: seq<byte>)
    requires |b| == PAGE_SIZE && |hdr| == META_OFF
    ensures var r := InitBytes(b, hdr); WellFormed(r) && View(r) == Page([], NEXT_OFF, 0) && r[..META_OFF] == hdr
  {
    var b1 := Splice(b, 0, hdr);
    var b2 := Splice(b1, META_OFF, MetaBytes(0, AREA_OFF, NEXT_OFF));
    var r := Splice(b2, NEXT_OFF, Le(0, 8));
    hide Nat, MetaBytes, Splice;
    SpliceElsewhere(b1, META_OFF, MetaBytes(0, AREA_OFF, NEXT_OFF), 0, META_OFF);
    SpliceElsewhere(b2, NEXT_OFF, Le(0, 8), 0, META_OFF);
    SpliceElsewhere(b2, NEXT_OFF, Le(0, 8), META_OFF, META_OFF + 8);
    MetaRead(r, 0, AREA_OFF, NEXT_OFF);
    Widths();
    NatOfLe(0, 8);
    assert b1[0..META_OFF] == hdr && r[..META_OFF] == r[0..META_OFF];
    Assemble(r, []);
  }
}
