/** The slotted heap page: its bytes, the list of tuples they stand for, and the
    effect of each write on that list. */
module HeapLayout {
  import opened Bytes

  const PAGE_SIZE: nat := 8192
  const META_OFF: nat := 41
  const AREA_OFF: nat := 49
  const SLOT_SIZE: nat := 5
  const TUPLE_HDR: nat := 28
  const NEXT_OFF: nat := PAGE_SIZE - 8

  type PageId = nat

  /** A tuple version: creating and ending transaction, link to the prior version. */
  datatype Tuple = Tuple(xmin: nat, xmax: nat, undoPtr: nat, data: seq<byte>)

  /** A slot is dead for good, or holds a tuple in a reservation of `cap` data bytes. */
  datatype Slot = Dead | Live(tuple: Tuple, cap: nat)

  /** What a heap page stands for. `upper` is where the tuple area starts. */
  datatype Page = Page(slots: seq<Slot>, upper: nat, next: PageId)

  function Lower(nrSlots: nat): nat { AREA_OFF + SLOT_SIZE * nrSlots }

  // ------------------------------------------------------- reading bytes

  datatype RawSlot = RawSlot(offset: nat, length: nat, flags: nat) {
    predicate IsDead() { flags % 2 == 1 || length == 0 }
  }

  function NrSlots(b: seq<byte>): nat
    requires |b| == PAGE_SIZE
  {
    Nat(b[META_OFF..META_OFF + 2])
  }

  function LowerOf(b: seq<byte>): nat
    requires |b| == PAGE_SIZE
  {
    Nat(b[META_OFF + 2..META_OFF + 4])
  }

  function UpperOf(b: seq<byte>): nat
    requires |b| == PAGE_SIZE
  {
    Nat(b[META_OFF + 4..META_OFF + 6])
  }

  function NextOf(b: seq<byte>): nat
    requires |b| == PAGE_SIZE
  {
    Nat(b[NEXT_OFF..PAGE_SIZE])
  }

  function DecodeSlot(s: seq<byte>): RawSlot
    requires |s| == SLOT_SIZE
  {
    RawSlot(Nat(s[..2]), Nat(s[2..4]), s[4])
  }

  function SlotAt(b: seq<byte>, i: nat): RawSlot
    requires |b| == PAGE_SIZE && Lower(i + 1) <= PAGE_SIZE
  {
    DecodeSlot(b[Lower(i)..Lower(i + 1)])
  }

  function DataLen(s: seq<byte>): nat
    requires |s| >= TUPLE_HDR
  {
    Nat(s[24..26])
  }

  /** A tuple read from the bytes reserved for it. */
  function DecodeTuple(s: seq<byte>): Tuple
    requires |s| >= TUPLE_HDR && TUPLE_HDR + DataLen(s) <= |s|
  {
    Tuple(Nat(s[..8]), Nat(s[8..16]), Nat(s[16..24]), s[TUPLE_HDR..TUPLE_HDR + DataLen(s)])
  }

  // ------------------------------------------------- which bytes are a page

  /** The reservation of a live slot lies in the tuple area and holds a tuple. */
  predicate Placed(b: seq<byte>, r: RawSlot, upper: nat)
    requires |b| == PAGE_SIZE
  {
    && upper <= r.offset && r.length >= TUPLE_HDR && r.offset + r.length <= NEXT_OFF
    && TUPLE_HDR + DataLen(b[r.offset..r.offset + r.length]) <= r.length
  }

  predicate SlotOk(b: seq<byte>, i: nat)
    requires |b| == PAGE_SIZE && Lower(i + 1) <= PAGE_SIZE
  {
    SlotAt(b, i).IsDead() || Placed(b, SlotAt(b, i), UpperOf(b))
  }

  predicate Disjoint(r: RawSlot, q: RawSlot) {
    r.IsDead() || q.IsDead() || r.offset + r.length <= q.offset || q.offset + q.length <= r.offset
  }

  ghost predicate Meta(b: seq<byte>)
    requires |b| == PAGE_SIZE
  {
    && LowerOf(b) == Lower(NrSlots(b)) <= UpperOf(b) <= NEXT_OFF - TUPLE_HDR * NrSlots(b)
  }

  ghost predicate WellFormed(b: seq<byte>) {
    && |b| == PAGE_SIZE && Meta(b)
    && (forall i | 0 <= i < NrSlots(b) :: SlotOk(b, i))
    && (forall i, j | 0 <= i < j < NrSlots(b) :: Disjoint(SlotAt(b, i), SlotAt(b, j)))
  }

  /** There is never room for a 247th slot. */
  lemma SlotBound(b: seq<byte>)
    requires WellFormed(b)
    ensures NrSlots(b) <= 246
  {
  }

  ghost function SlotView(b: seq<byte>, i: nat): Slot
    requires |b| == PAGE_SIZE && Lower(i + 1) <= PAGE_SIZE && SlotOk(b, i)
  {
    var r := SlotAt(b, i);
    if r.IsDead() then Dead else Live(DecodeTuple(b[r.offset..r.offset + r.length]), r.length - TUPLE_HDR)
  }

  ghost function View(b: seq<byte>): (p: Page)
    requires WellFormed(b)
    ensures |p.slots| == NrSlots(b) && p.upper == UpperOf(b) && p.next == NextOf(b)
    ensures forall i | 0 <= i < NrSlots(b) :: p.slots[i] == SlotView(b, i)
  {
    Page(seq(NrSlots(b), i requires 0 <= i < NrSlots(b) => SlotView(b, i)), UpperOf(b), NextOf(b))
  }

  // ------------------------------------------------------- writing bytes

  function TupleHdrBytes(t: Tuple): (r: seq<byte>)
    ensures |r| == TUPLE_HDR
  {
    Le(t.xmin, 8) + Le(t.xmax, 8) + Le(t.undoPtr, 8) + Le(|t.data|, 2) + [0, 0]
  }

  function SlotBytes(r: RawSlot): (s: seq<byte>)
    requires r.flags < 256
    ensures |s| == SLOT_SIZE
  {
    Le(r.offset, 2) + Le(r.length, 2) + [r.flags]
  }

  function MetaBytes(nrSlots: nat, lower: nat, upper: nat): (s: seq<byte>)
    ensures |s| == 8
  {
    Le(nrSlots, 2) + Le(lower, 2) + Le(upper, 2) + [0, 0]
  }

  predicate Fits64(t: Tuple) {
    t.xmin < 0x1_0000_0000_0000_0000 && t.xmax < 0x1_0000_0000_0000_0000 && t.undoPtr < 0x1_0000_0000_0000_0000
  }

  lemma SlotRoundTrip(r: RawSlot)
    requires r.offset < 0x1_0000 && r.length < 0x1_0000 && r.flags < 256
    ensures DecodeSlot(SlotBytes(r)) == r
  {
    Widths();
    NatOfLe(r.offset, 2);
    NatOfLe(r.length, 2);
    var s := SlotBytes(r);
    assert s[..2] == Le(r.offset, 2) && s[2..4] == Le(r.length, 2);
  }

  lemma MetaRoundTrip(nrSlots: nat, lower: nat, upper: nat)
    requires nrSlots < 0x1_0000 && lower < 0x1_0000 && upper < 0x1_0000
    ensures var s := MetaBytes(nrSlots, lower, upper); Nat(s[..2]) == nrSlots && Nat(s[2..4]) == lower && Nat(s[4..6]) == upper
  {
    Widths();
    NatOfLe(nrSlots, 2);
    NatOfLe(lower, 2);
    NatOfLe(upper, 2);
    var s := MetaBytes(nrSlots, lower, upper);
    assert s[..2] == Le(nrSlots, 2) && s[2..4] == Le(lower, 2) && s[4..6] == Le(upper, 2);
  }

  /** A tuple written at the start of a reservation is read back from it. */
  lemma TupleRoundTrip(t: Tuple, s: seq<byte>)
    requires Fits64(t) && |t.data| < 0x1_0000 && |s| >= TUPLE_HDR + |t.data|
    requires s[..TUPLE_HDR] == TupleHdrBytes(t) && s[TUPLE_HDR..TUPLE_HDR + |t.data|] == t.data
    ensures DataLen(s) == |t.data| && DecodeTuple(s) == t
  {
    hide Le, Nat, Pow256;
    Widths();
    NatOfLe(t.xmin, 8);
    NatOfLe(t.xmax, 8);
    NatOfLe(t.undoPtr, 8);
    NatOfLe(|t.data|, 2);
    FiveParts(Le(t.xmin, 8), Le(t.xmax, 8), Le(t.undoPtr, 8), Le(|t.data|, 2), [0, 0]);
    HeaderPart(s, TupleHdrBytes(t), 0, 8);
    HeaderPart(s, TupleHdrBytes(t), 8, 16);
    HeaderPart(s, TupleHdrBytes(t), 16, 24);
    HeaderPart(s, TupleHdrBytes(t), 24, 26);
    assert s[..8] == s[0..8];
  }

  lemma FiveParts(a: seq<byte>, b: seq<byte>, c: seq<byte>, d: seq<byte>, e: seq<byte>)
    ensures var s, i, j, k := a + b + c + d + e, |a|, |a| + |b|, |a| + |b| + |c|;
      s[0..i] == a && s[i..j] == b && s[j..k] == c && s[k..k + |d|] == d
  {
  }

  lemma HeaderPart(s: seq<byte>, h: seq<byte>, i: nat, j: nat)
    requires |h| <= |s| && s[..|h|] == h && i <= j <= |h|
    ensures s[i..j] == h[i..j]
  {
    forall k | i <= k < j
      ensures s[k] == h[k]
    {
      assert s[..|h|][k] == s[k];
    }
  }
}
