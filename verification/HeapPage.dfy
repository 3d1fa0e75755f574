/** The heap page operations on the bytes of one page. */
module HeapPages {
  import opened Basics
  import opened Bytes
  import opened HeapLayout
  import opened HeapEffects

  /** What a slot-addressed operation answers when the slot holds no tuple. */
  function Missing(p: Page, i: nat): int { if IsLive(p, i) then 0 else ENOENT }

  class HeapPage {
    const bytes: array<byte>
    const id: PageId

    constructor (id: PageId, bytes: array<byte>)
      ensures this.id == id && this.bytes == bytes
    {
      this.id := id;
      this.bytes := bytes;
    }

    ghost predicate Valid()
      reads bytes
    {
      WellFormed(bytes[..])
    }

    ghost function Content(): Page
      requires Valid()
      reads bytes
    {
      View(bytes[..])
    }

    ghost function Header(): seq<byte>
      requires Valid()
      reads bytes
    {
      bytes[..META_OFF]
    }

    /** Slot `i` as the directory has it, or nothing when it is out of range or dead. */
    method FindSlot(i: nat) returns (found: bool, r: RawSlot)
      requires Valid()
      ensures found <==> IsLive(Content(), i)
      ensures found ==> Lower(i + 1) <= PAGE_SIZE && r == SlotAt(bytes[..], i)
    {
      MetaBounds(bytes[..]);
      Disassemble(bytes[..]);
      r := RawSlot(0, 0, 0);
      var n := Nat(bytes[META_OFF..META_OFF + 2]);
      assert bytes[META_OFF..META_OFF + 2] == bytes[..][META_OFF..META_OFF + 2];
      found := i < n;
      if found {
        LiveSlot(bytes[..], i);
        assert bytes[Lower(i)..Lower(i + 1)] == bytes[..][Lower(i)..Lower(i + 1)];
        r := DecodeSlot(bytes[Lower(i)..Lower(i + 1)]);
        found := !r.IsDead();
      }
    }

    method Init(hdr: seq<byte>)
      requires bytes.Length == PAGE_SIZE && |hdr| == META_OFF
      modifies bytes
      ensures Valid() && Content() == Page([], NEXT_OFF, 0) && Header() == hdr
    {
      InitEffect(bytes[..], hdr);
      CopyIn(bytes, 0, hdr);
      CopyIn(bytes, META_OFF, MetaBytes(0, AREA_OFF, NEXT_OFF));
      CopyIn(bytes, NEXT_OFF, Le(0, 8));
    }

    method FreeSpace() returns (free: nat)
      requires Valid()
      ensures free == Free(Content())
    {
      hide Nat;
      MetaBounds(bytes[..]);
      assert bytes[META_OFF + 2..META_OFF + 4] == bytes[..][META_OFF + 2..META_OFF + 4];
      assert bytes[META_OFF + 4..META_OFF + 6] == bytes[..][META_OFF + 4..META_OFF + 6];
      var lower, upper := Nat(bytes[META_OFF + 2..META_OFF + 4]), Nat(bytes[META_OFF + 4..META_OFF + 6]);
      free := if upper > lower then upper - lower else 0;
    }

    method NrOfSlots() returns (n: nat)
      requires Valid()
      ensures n == |Content().slots| <= 246
    {
      Disassemble(bytes[..]);
      MetaBounds(bytes[..]);
      assert bytes[META_OFF..META_OFF + 2] == bytes[..][META_OFF..META_OFF + 2];
      n := Nat(bytes[META_OFF..META_OFF + 2]);
    }

    method HasSpace(len: nat) returns (ok: bool)
      requires Valid() && len < 0x1_0000
      ensures ok <==> HasRoom(Content(), len)
    {
      MetaBounds(bytes[..]);
      if len > PAGE_SIZE {
        return false;
      }
      var needed := (SLOT_SIZE + TUPLE_HDR + len) % 0x1_0000;
      var free := FreeSpace();
      ok := free >= needed;
    }

    method InsertTuple(data: seq<byte>, xmin: nat, xmax: nat, undoPtr: nat) returns (err: int, slot: nat)
      requires Valid() && |data| < 0x1_0000 && xmin < U64 && xmax < U64 && undoPtr < U64
      modifies bytes
      ensures Valid() && Header() == old(Header())
      ensures err == if |data| > PAGE_SIZE then EINVAL else if HasRoom(old(Content()), |data|) then 0 else ENOSPC
      ensures err == 0 <==> |data| <= 8192 && LowerOf(old(bytes[..])) + 33 + |data| <= UpperOf(old(bytes[..]))
      ensures err != 0 ==> bytes[..] == old(bytes[..])
      ensures err == 0 ==> slot == |old(Content()).slots| && Content() == Inserted(old(Content()), Tuple(xmin, xmax, undoPtr, data))
      ensures err == 0 ==> Lower(slot + 1) <= PAGE_SIZE && SlotAt(bytes[..], slot).offset == Content().upper
      ensures err == 0 ==> SlotsKept(old(bytes[..]), bytes[..], slot)
    {
      hide WellFormed, View, Nat, InsertBytes, Meta;
      slot := 0;
      if |data| > PAGE_SIZE {
        return EINVAL, slot;
      }
      MetaBounds(bytes[..]);
      SlotBound(bytes[..]);
      var needed := (SLOT_SIZE + TUPLE_HDR + |data|) % 0x1_0000;
      var free := FreeSpace();
      if free < needed {
        return ENOSPC, slot;
      }
      ghost var b := bytes[..];
      var t := Tuple(xmin, xmax, undoPtr, data);
      InsertEffect(b, t);
      InsertNewSlot(b, t);
      InsertKeepsSlots(b, t);
      var n := NrOfSlots();
      assert bytes[META_OFF + 4..META_OFF + 6] == b[META_OFF + 4..META_OFF + 6];
      var top := Nat(bytes[META_OFF + 4..META_OFF + 6]) - TUPLE_HDR - |data|;
      WriteTuple(n, top, t);
      slot := n;
      err := 0;
    }

    /** The four writes of an insert. */
    method WriteTuple(n: nat, top: nat, t: Tuple)
      requires bytes.Length == PAGE_SIZE && n == NrSlots(bytes[..]) && UpperOf(bytes[..]) <= NEXT_OFF
      requires Lower(n + 1) <= top && top + TUPLE_HDR + |t.data| == UpperOf(bytes[..])
      modifies bytes
      ensures bytes[..] == InsertBytes(old(bytes[..]), t)
    {
      hide Nat, NrSlots, UpperOf, TupleHdrBytes, SlotBytes, MetaBytes, Splice;
      CopyIn(bytes, top, TupleHdrBytes(t));
      CopyIn(bytes, top + TUPLE_HDR, t.data);
      CopyIn(bytes, Lower(n), SlotBytes(RawSlot(top, TUPLE_HDR + |t.data|, 0)));
      CopyIn(bytes, META_OFF, MetaBytes(n + 1, Lower(n + 1), top));
    }

    method OverwriteTuple(i: nat, data: seq<byte>, xmin: nat, xmax: nat, undoPtr: nat) returns (err: int)
      requires Valid() && xmin < U64 && xmax < U64 && undoPtr < U64
      requires TUPLE_HDR + |data| < 0x1_0000
      modifies bytes
      ensures Valid() && Header() == old(Header())
      ensures err == if !IsLive(old(Content()), i) then ENOENT else if |data| > old(Content()).slots[i].cap then ENOSPC else 0
      ensures err != 0 ==> bytes[..] == old(bytes[..])
      ensures err == 0 ==> Content() == Overwritten(old(Content()), i, Tuple(xmin, xmax, undoPtr, data))
    {
      hide WellFormed, View, Nat, SlotAt, TupleHdrBytes;
      ghost var b := bytes[..];
      MetaBounds(b);
      var found, r := FindSlot(i);
      if !found {
        return ENOENT;
      }
      LiveSlot(b, i);
      if (TUPLE_HDR + |data|) % 0x1_0000 > r.length {
        return ENOSPC;
      }
      var t := Tuple(xmin, xmax, undoPtr, data);
      OverwriteEffect(b, i, t);
      CopyIn(bytes, r.offset, TupleHdrBytes(t));
      CopyIn(bytes, r.offset + TUPLE_HDR, data);
      assert bytes[..] == OverwriteBytes(b, r, t);
      err := 0;
    }

    method RetireSlot(i: nat) returns (err: int)
      requires Valid()
      modifies bytes
      ensures Valid() && Header() == old(Header())
      ensures err == if i < |old(Content()).slots| then 0 else ENOENT
      ensures err != 0 ==> bytes[..] == old(bytes[..])
      ensures err == 0 ==> Content() == Retired(old(Content()), i)
    {
      hide WellFormed, View, Nat, SlotBytes;
      ghost var b := bytes[..];
      MetaBounds(b);
      var n := NrOfSlots();
      if i >= n {
        return ENOENT;
      }
      RetireEffect(b, i);
      assert bytes[Lower(i)..Lower(i + 1)] == b[Lower(i)..Lower(i + 1)];
      var r := DecodeSlot(bytes[Lower(i)..Lower(i + 1)]);
      var flags := if r.flags % 2 == 1 then r.flags else r.flags + 1;
      FlagsByte(b, i);
      CopyIn(bytes, Lower(i), SlotBytes(RawSlot(r.offset, 0, flags)));
      err := 0;
    }

    method SlotCapacity(i: nat) returns (err: int, cap: nat)
      requires Valid()
      ensures err == Missing(Content(), i)
      ensures err == 0 ==> cap == Content().slots[i].cap
    {
      hide WellFormed, View, Nat, SlotAt;
      var found, r := FindSlot(i);
      if !found {
        return ENOENT, 0;
      }
      LiveSlot(bytes[..], i);
      return 0, r.length - TUPLE_HDR;
    }

    /** The `size` bytes that a read of slot `i` copies lie in the page and the `extra` bytes
        of memory behind it. */
    ghost predicate Reaches(i: nat, size: nat, extra: nat)
      requires Valid()
      reads bytes
    {
      IsLive(Content(), i) ==> Lower(i + 1) <= PAGE_SIZE && SlotAt(bytes[..], i).offset + TUPLE_HDR + size <= PAGE_SIZE + extra
    }

    /** They lie in the page. */
    ghost predicate WindowIn(i: nat, size: nat)
      requires Valid()
      reads bytes
    {
      Reaches(i, size, 0)
    }

    /** A copy never starts outside the page, so as many bytes behind it are always enough;
        and a copy of at most eight bytes more than the payload stays inside. */
    lemma ReachesAlways(i: nat, size: nat)
      requires Valid()
      ensures Reaches(i, size, size)
      ensures IsLive(Content(), i) && size <= |Content().slots[i].tuple.data| + 8 ==> WindowIn(i, size)
      ensures size <= 8 ==> WindowIn(i, size)
    {
      hide WellFormed, View, SlotAt;
      if IsLive(Content(), i) {
        WindowFits(bytes[..], i);
      }
    }

    /** A read without a buffer: where the tuple is, and its header. */
    method ReadHeader(i: nat) returns (err: int, r: RawSlot, hdr: Tuple)
      requires Valid()
      ensures err == Missing(Content(), i)
      ensures err == 0 ==> Lower(i + 1) <= PAGE_SIZE && r == SlotAt(bytes[..], i) && hdr == Content().slots[i].tuple
    {
      hide WellFormed, View, Nat, SlotAt;
      ghost var b := bytes[..];
      hdr := Tuple(0, 0, 0, []);
      var found;
      found, r := FindSlot(i);
      if !found {
        return ENOENT, r, hdr;
      }
      LiveSlot(b, i);
      assert bytes[r.offset..r.offset + r.length] == b[r.offset..r.offset + r.length];
      hdr := DecodeTuple(bytes[r.offset..r.offset + r.length]);
      err := 0;
    }

    /** Copies `size` bytes from the start of the payload, whatever the payload's length,
        running into the memory `beyond` the page if need be; `strict` refuses a payload
        that is longer. */
    method ReadWindow(i: nat, size: nat, strict: bool, beyond: seq<byte>) returns (err: int, hdr: Tuple, buf: seq<byte>)
      requires Valid() && Reaches(i, size, |beyond|)
      ensures err == if !IsLive(Content(), i) then ENOENT
                     else if strict && |Content().slots[i].tuple.data| > size then ENOSPC else 0
      ensures err == 0 ==> var t := Content().slots[i].tuple; var m := Min(size, |t.data|);
        hdr.(data := t.data) == t && |hdr.data| == |t.data| && |buf| == size && buf[..m] == t.data[..m]
      ensures err == 0 ==> Lower(i + 1) <= PAGE_SIZE && var at := SlotAt(bytes[..], i).offset + TUPLE_HDR;
        at + size <= PAGE_SIZE + |beyond| && buf == (bytes[..] + beyond)[at..at + size]
    {
      hide WellFormed, View, Nat, SlotAt, DecodeTuple, DataLen;
      ghost var b := bytes[..];
      buf := [];
      var r;
      err, r, hdr := ReadHeader(i);
      if err != 0 {
        return;
      }
      if |hdr.data| > size && strict {
        err := ENOSPC;
        return;
      }
      MetaBounds(b);
      var at := r.offset + TUPLE_HDR;
      buf := (bytes[..] + beyond)[at..at + size];
      LiveSlot(b, i);
      WindowPrefix(b, beyond, r.offset, r.offset + r.length, size);
    }

    method ReadTuple(i: nat, size: nat, beyond: seq<byte>) returns (err: int, hdr: Tuple, buf: seq<byte>)
      requires Valid() && Reaches(i, size, |beyond|)
      ensures err == if !IsLive(Content(), i) then ENOENT else if |Content().slots[i].tuple.data| > size then ENOSPC else 0
      ensures err == 0 ==> |hdr.data| <= |buf| == size && hdr.(data := buf[..|hdr.data|]) == Content().slots[i].tuple
      ensures err == 0 ==> Lower(i + 1) <= PAGE_SIZE && var at := SlotAt(bytes[..], i).offset + TUPLE_HDR;
        at + size <= PAGE_SIZE + |beyond| && buf == (bytes[..] + beyond)[at..at + size]
    {
      err, hdr, buf := ReadWindow(i, size, true, beyond);
    }

    /** The first eight bytes of a payload that has them: the row's key. */
    method ReadTuplePk(i: nat, size: nat) returns (err: int, hdr: Tuple, buf: seq<byte>)
      requires Valid()
      ensures err == if size != 8 then ENOSPC else Missing(Content(), i)
      ensures err == 0 ==> |hdr.data| == |Content().slots[i].tuple.data|
      ensures err == 0 && |Content().slots[i].tuple.data| >= 8 ==> buf == Content().slots[i].tuple.data[..8]
    {
      hide WellFormed, View, SlotAt;
      if size != 8 {
        return ENOSPC, Tuple(0, 0, 0, []), [];
      }
      ReachesAlways(i, 8);
      err, hdr, buf := ReadWindow(i, size, false, []);
      assert err == 0 ==> buf[..8] == buf;
    }

    method DeleteTuple(i: nat, xmax: nat) returns (err: int)
      requires Valid() && xmax < U64
      modifies bytes
      ensures Valid() && Header() == old(Header())
      ensures err == Missing(old(Content()), i)
      ensures err != 0 ==> bytes[..] == old(bytes[..])
      ensures err == 0 ==> Content() == Deleted(old(Content()), i, xmax)
    {
      hide WellFormed, View, Nat, SlotAt;
      ghost var b := bytes[..];
      MetaBounds(b);
      var found, r := FindSlot(i);
      if !found {
        return ENOENT;
      }
      LiveSlot(b, i);
      DeleteEffect(b, i, xmax);
      CopyIn(bytes, r.offset + 8, Le(xmax, 8));
      err := 0;
    }

    method GetNext() returns (next: PageId)
      requires Valid()
      ensures next == Content().next
    {
      MetaBounds(bytes[..]);
      assert bytes[NEXT_OFF..PAGE_SIZE] == bytes[..][NEXT_OFF..PAGE_SIZE];
      next := Nat(bytes[NEXT_OFF..PAGE_SIZE]);
    }

    method SetNext(next: PageId)
      requires Valid() && next < U64
      modifies bytes
      ensures Valid() && Header() == old(Header())
      ensures Content() == old(Content()).(next := next)
    {
      hide WellFormed, View, Nat;
      LinkEffect(bytes[..], next);
      CopyIn(bytes, NEXT_OFF, Le(next, 8));
    }
  }

  lemma FlagsByte(b: seq<byte>, i: nat)
    requires |b| == PAGE_SIZE && Lower(i + 1) <= PAGE_SIZE
    ensures 0 <= SlotAt(b, i).flags < 256
  {
  }

  /** A window no longer than the payload lies in the page. */
  lemma WindowFits(b: seq<byte>, i: nat)
    requires WellFormed(b) && IsLive(View(b), i)
    ensures Lower(i + 1) <= PAGE_SIZE && |View(b).slots[i].tuple.data| <= View(b).slots[i].cap < 0x1_0000 - TUPLE_HDR
    ensures SlotAt(b, i).offset + TUPLE_HDR + |View(b).slots[i].tuple.data| <= NEXT_OFF
  {
    hide WellFormed, View, Nat, SlotAt;
    LiveSlot(b, i);
  }

  lemma WindowPrefix(b: seq<byte>, beyond: seq<byte>, from: nat, to: nat, size: nat)
    requires from + TUPLE_HDR <= to <= |b| == PAGE_SIZE && from + TUPLE_HDR + size <= PAGE_SIZE + |beyond|
    requires TUPLE_HDR + DataLen(b[from..to]) <= to - from
    ensures var d := DecodeTuple(b[from..to]).data; var m := Min(size, |d|);
      (b + beyond)[from + TUPLE_HDR..from + TUPLE_HDR + size][..m] == d[..m]
  {
    hide Nat;
    var n, all := DataLen(b[from..to]), b + beyond;
    var m := Min(size, n);
    SubSlice(b, from, to, TUPLE_HDR, TUPLE_HDR + n);
    SubSlice(all, from + TUPLE_HDR, from + TUPLE_HDR + size, 0, m);
    SubSlice(b, from + TUPLE_HDR, from + TUPLE_HDR + n, 0, m);
    SubSlice(all, 0, |b|, from + TUPLE_HDR, from + TUPLE_HDR + m);
    assert all[0..|b|] == b;
  }

  // ------------------------------------------------- reading past the page

  /** What a copy yields is decided by the page alone exactly when it stays inside. */
  lemma InsideIffDecided(b: seq<byte>, at: nat, size: nat)
    requires at <= |b|
    ensures at + size <= |b| <==>
      forall x: seq<byte>, y: seq<byte> | |x| == size == |y| :: (b + x)[at..at + size] == (b + y)[at..at + size]
  {
    if at + size > |b| {
      var x: seq<byte>, y: seq<byte> := seq(size, _ => 0), seq(size, _ => 1);
      var k := |b| - at;
      assert (b + x)[at..at + size][k] == 0 && (b + y)[at..at + size][k] == 1;
    } else {
      forall x: seq<byte>, y: seq<byte> | |x| == size == |y|
        ensures (b + x)[at..at + size] == (b + y)[at..at + size]
      {
        assert (b + x)[at..at + size] == b[at..at + size] == (b + y)[at..at + size];
      }
    }
  }

  /** On any page, a copy of `size` bytes of the row inserted last stays in the page exactly
      when `size` is at most the row's length and the bytes above it; the copies of the rows
      before it are where they were. */
  method InsertAndReach(p: HeapPage, row: seq<byte>, size: nat) returns (err: int, slot: nat)
    requires p.Valid() && |row| < 0x1_0000
    modifies p.bytes
    ensures p.Valid()
    ensures err == if |row| > PAGE_SIZE then EINVAL else if HasRoom(old(p.Content()), |row|) then 0 else ENOSPC
    ensures err != 0 ==> p.bytes[..] == old(p.bytes[..])
    ensures err == 0 ==> slot == |old(p.Content()).slots| && p.Content() == Inserted(old(p.Content()), Tuple(1, 0, 0, row))
    ensures err == 0 ==> (p.WindowIn(slot, size) <==> size <= |row| + PAGE_SIZE - old(p.Content()).upper)
    ensures forall i | 0 <= i < |old(p.Content()).slots| :: p.WindowIn(i, size) <==> old(p.WindowIn(i, size))
  {
    hide WellFormed, View, SlotAt;
    err, slot := p.InsertTuple(row, 1, 0, 0);
  }

  /** On a page whose first row this is, however many rows follow, a copy of `size` bytes of
      it stays in the page exactly when the row is at most eight bytes shorter. The duplicate
      scan copies 256 bytes, so it leaves every page whose first row has fewer than 248. */
  method ReadFirstRow(id: PageId, row: seq<byte>, more: seq<seq<byte>>, size: nat) returns (p: HeapPage)
    requires |row| <= 8102 && forall i | 0 <= i < |more| :: |more[i]| < 0x1_0000
    ensures p.Valid() && IsLive(p.Content(), 0) && p.Content().slots[0].tuple == Tuple(1, 0, 0, row)
    ensures p.WindowIn(0, size) <==> size <= |row| + 8
  {
    hide WellFormed, View, HeapPage.WindowIn;
    var bytes := new byte[PAGE_SIZE](_ => 0);
    p := new HeapPage(id, bytes);
    p.Init(seq(META_OFF, _ => 0));
    var err, slot := InsertAndReach(p, row, size);
    for i := 0 to |more|
      invariant p.Valid() && IsLive(p.Content(), 0) && p.Content().slots[0].tuple == Tuple(1, 0, 0, row)
      invariant p.WindowIn(0, size) <==> size <= |row| + 8
    {
      err, slot := InsertAndReach(p, more[i], size);
    }
  }
}
