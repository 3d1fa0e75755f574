/** Writing and reading undo entries, and updating a tuple through them. */
module UndoUpdate {
  import opened Basics
  import opened Bytes
  import opened HeapLayout
  import opened HeapEffects
  import opened HeapPages
  import opened UndoHistory

  method WriteEntry(undo: HeapPage, owner: nat, oldTid: Tid, prev: nat, xmin: nat, xmax: nat, op: byte,
                    data: seq<byte>, xid: nat) returns (err: int, slot: nat)
    requires undo.Valid() && xid < U64
    modifies undo.bytes
    ensures undo.Valid() && undo.Header() == old(undo.Header())
    ensures err == if |data| > MAX_OLD_DATA then EMSGSIZE else if HasRoom(old(undo.Content()), ENTRY_SIZE) then 0 else ENOSPC
    ensures err != 0 ==> undo.bytes[..] == old(undo.bytes[..])
    ensures err == 0 ==> slot == |old(undo.Content()).slots|
    ensures err == 0 ==> undo.Content() == Inserted(old(undo.Content()), UndoTuple(Entry(owner, oldTid, prev, xmin, xmax, op, data), xid))
  {
    hide WellFormed, View, EncodeEntry;
    if |data| > MAX_OLD_DATA {
      return EMSGSIZE, 0;
    }
    var entry := Entry(owner, oldTid, prev, xmin, xmax, op, data);
    err, slot := undo.InsertTuple(EncodeEntry(entry), xid, 0, 0);
  }

  /** Reading the slot of an entry gives the entry back. */
  method ReadEntry(undo: HeapPage, slot: nat, beyond: seq<byte>) returns (err: int, bytes: seq<byte>)
    requires undo.Valid() && |beyond| == ENTRY_SIZE
    ensures err == if !IsLive(undo.Content(), slot) then ENOENT
                   else if |undo.Content().slots[slot].tuple.data| > ENTRY_SIZE then ENOSPC else 0
    ensures err == 0 ==> |bytes| == ENTRY_SIZE
    ensures forall e: Entry | IsLive(undo.Content(), slot) && EntryFits(e) && undo.Content().slots[slot].tuple.data == EncodeEntry(e) ::
      err == 0 && IsEntry(bytes) && DecodeEntry(bytes) == e
  {
    hide WellFormed, View, EncodeEntry, IsEntry, DecodeEntry;
    var hdr;
    undo.ReachesAlways(slot, ENTRY_SIZE);
    err, hdr, bytes := undo.ReadTuple(slot, ENTRY_SIZE, beyond);
    forall e: Entry | IsLive(undo.Content(), slot) && EntryFits(e) && undo.Content().slots[slot].tuple.data == EncodeEntry(e)
      ensures err == 0 && IsEntry(bytes) && DecodeEntry(bytes) == e
    {
      EntryRoundTrip(e);
      assert bytes[..ENTRY_SIZE] == bytes;
    }
  }

  /** The tuple at `slot` of `target`, its payload read into a buffer of just its size. */
  method ReadOld(target: HeapPage, slot: nat) returns (err: int, tuple: Tuple)
    requires target.Valid()
    ensures err == if !IsLive(target.Content(), slot) then ENOENT
                   else if |target.Content().slots[slot].tuple.data| > MAX_OLD_DATA then EMSGSIZE else 0
    ensures err == 0 ==> tuple == target.Content().slots[slot].tuple
  {
    hide WellFormed, View, SlotAt;
    var r;
    err, r, tuple := target.ReadHeader(slot);
    if err != 0 {
      return;
    }
    if |tuple.data| > MAX_OLD_DATA {
      err := EMSGSIZE;
      return;
    }
    if |tuple.data| > 0 {
      WindowFits(target.bytes[..], slot);
      var data;
      err, tuple, data := target.ReadTuple(slot, |tuple.data|, []);
      tuple := tuple.(data := data);
      assert data[..|data|] == data;
    }
  }

  method UpdateTuple(target: HeapPage, slot: nat, data: seq<byte>, xid: nat, owner: nat, undo: HeapPage)
    returns (err: int, newSlot: nat)
    requires target.Valid() && undo.Valid() && target.bytes != undo.bytes
    requires |data| < 0x1_0000 && xid < U64
    modifies target.bytes, undo.bytes
    ensures target.Valid() && undo.Valid()
    ensures target.Header() == old(target.Header()) && undo.Header() == old(undo.Header())
    ensures var o := Updated(old(target.Content()), Tid(target.id, slot), old(undo.Content()), undo.id, data, xid, owner);
      && err == o.err && target.Content() == o.target && undo.Content() == o.undo && (err == 0 ==> newSlot == o.slot)
    ensures err == 0 <==> UpdateFits(old(target.Content()), slot, old(undo.Content()), |data|)
    ensures err == 0 ==> newSlot == if |data| <= old(target.Content()).slots[slot].cap then slot else |old(target.Content()).slots|
  {
    hide WellFormed, View, SlotAt, EncodeEntry, Updated, UpdateFits;
    ViewOk(target.bytes[..]);
    UpdateAnswers(target.Content(), Tid(target.id, slot), undo.Content(), undo.id, data, xid, owner);
    err, newSlot := Update(target, slot, data, xid, owner, undo);
  }

  /** The steps of an update. */
  method Update(target: HeapPage, slot: nat, data: seq<byte>, xid: nat, owner: nat, undo: HeapPage)
    returns (err: int, newSlot: nat)
    requires target.Valid() && undo.Valid() && target.bytes != undo.bytes
    requires |data| < 0x1_0000 && xid < U64
    modifies target.bytes, undo.bytes
    ensures target.Valid() && undo.Valid()
    ensures target.Header() == old(target.Header()) && undo.Header() == old(undo.Header())
    ensures var o := Updated(old(target.Content()), Tid(target.id, slot), old(undo.Content()), undo.id, data, xid, owner);
      && err == o.err && target.Content() == o.target && undo.Content() == o.undo && (err == 0 ==> newSlot == o.slot)
  {
    hide WellFormed, View, SlotAt, EncodeEntry;
    newSlot := 0;
    var prior;
    err, prior := ReadOld(target, slot);
    if err != 0 {
      return;
    }
    var undoSlot;
    err, undoSlot := WriteEntry(undo, owner, Tid(target.id, slot), prior.undoPtr, prior.xmin, xid, OP_UPDATE, prior.data, xid);
    if err != 0 {
      return;
    }
    UndoSlotFits(undo.bytes[..]);
    var ptr := Pack(Tid(undo.id, undoSlot));
    PackBound(Tid(undo.id, undoSlot));
    var cap;
    err, cap := target.SlotCapacity(slot);
    WindowFits(target.bytes[..], slot);
    if |data| <= cap {
      err := target.OverwriteTuple(slot, data, xid, 0, ptr);
      newSlot := slot;
    } else {
      err := target.RetireSlot(slot);
      err, newSlot := target.InsertTuple(data, xid, 0, ptr);
    }
  }

  lemma UndoSlotFits(b: seq<byte>)
    requires WellFormed(b)
    ensures |View(b).slots| <= 246
  {
    Disassemble(b);
  }

  lemma PackBound(t: Tid)
    requires t.slot < U16
    ensures Pack(t) < U64
  {
  }

  /** The bounds of a page in bytes are the bounds of the page it stands for. */
  lemma ViewOk(b: seq<byte>)
    requires WellFormed(b)
    ensures PageOk(View(b))
  {
  }
}
