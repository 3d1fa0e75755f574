/** Rows and their histories on the bytes of real pages: every run of operations keeps
    the write log that the undo specification speaks of. */
module UndoStore {
  import opened Basics
  import opened Bytes
  import opened HeapLayout
  import opened HeapEffects
  import opened HeapPages
  import opened UndoHistory
  import opened UndoUpdate

  type Frames = map<PageId, HeapPage>

  ghost function Arrays(m: Frames): set<array<byte>> { set id | id in m :: m[id].bytes }

  /** The bytes of every page. */
  ghost function Images(m: Frames): (r: map<PageId, seq<byte>>)
    reads Arrays(m)
    ensures r.Keys == m.Keys
  {
    map id | id in m :: m[id].bytes[..]
  }

  ghost predicate Formed(im: map<PageId, seq<byte>>) { forall id | id in im :: WellFormed(im[id]) }

  /** The pages that the bytes stand for. */
  ghost function Views(im: map<PageId, seq<byte>>): (r: Pages)
    requires Formed(im)
    ensures r.Keys == im.Keys
  {
    map id | id in im :: View(im[id])
  }

  /** Pages are under their own ids and no two share their bytes. */
  ghost predicate Shelved(m: Frames) {
    && (forall id | id in m :: 0 < id < U48 && m[id].id == id)
    && (forall x, y | x in m && y in m && x != y :: m[x].bytes != m[y].bytes)
  }

  /** New bytes for one page are a new page in its place. */
  lemma OneView(im: map<PageId, seq<byte>>, x: PageId, b: seq<byte>)
    requires Formed(im) && WellFormed(b)
    ensures Formed(im[x := b]) && Views(im[x := b]) == Views(im)[x := View(b)]
  {
    hide WellFormed, View;
  }

  /** The bounds of a page in bytes are the bounds of the page it stands for. */
  lemma ViewsOk(im: map<PageId, seq<byte>>)
    requires Formed(im) && forall id | id in im :: 0 < id < U48
    ensures PagesOk(Views(im))
  {
    hide WellFormed, View;
    forall id | id in im
      ensures PageOk(Views(im)[id])
    {
      ViewOk(im[id]);
    }
  }

  lemma InArrays(m: Frames, x: PageId)
    requires x in m
    ensures m[x].bytes in Arrays(m) && Images(m)[x] == m[x].bytes[..]
  {
  }

  lemma SameIds(m: Frames)
    requires Formed(Images(m))
    ensures forall x :: x in m <==> x in Views(Images(m))
  {
    hide WellFormed, View;
  }

  lemma AddedArrays(m: Frames, id: PageId, p: HeapPage)
    requires id !in m
    ensures Arrays(m[id := p]) == Arrays(m) + {p.bytes}
  {
    var m' := m[id := p];
    forall a | a in Arrays(m) + {p.bytes}
      ensures a in Arrays(m')
    {
      if a in Arrays(m) {
        var x :| x in m && m[x].bytes == a;
        assert m'[x].bytes == a;
      } else {
        assert m'[id].bytes == a;
      }
    }
    forall a | a in Arrays(m')
      ensures a in Arrays(m) + {p.bytes}
    {
      var x :| x in m' && m'[x].bytes == a;
      assert x != id ==> m[x].bytes == a;
    }
  }

  lemma AddedShelved(m: Frames, id: PageId, p: HeapPage)
    requires Shelved(m) && 0 < id < U48 && p.id == id && p.bytes !in Arrays(m) && id !in m
    ensures Shelved(m[id := p])
  {
    hide Arrays;
    forall x | x in m
      ensures m[x].bytes != p.bytes
    {
      InArrays(m, x);
    }
  }

  lemma AddedImages(m: Frames, id: PageId, p: HeapPage)
    requires id !in m
    ensures Images(m[id := p]) == Images(m)[id := p.bytes[..]]
  {
    hide Arrays;
  }

  /** The shelf with one more page. */
  lemma Added(m: Frames, id: PageId, p: HeapPage)
    requires Shelved(m) && Formed(Images(m)) && 0 < id < U48 && p.id == id && p.bytes !in Arrays(m) && id !in m && p.Valid()
    ensures var m' := m[id := p];
      && Arrays(m') == Arrays(m) + {p.bytes} && Shelved(m') && Formed(Images(m'))
      && Views(Images(m')) == Views(Images(m))[id := p.Content()]
  {
    hide WellFormed, View, Views, Formed, Shelved, Images, Arrays;
    AddedArrays(m, id, p);
    AddedShelved(m, id, p);
    AddedImages(m, id, p);
    OneView(Images(m), id, p.bytes[..]);
  }

  /** A new page, apart from all others. */
  method MakePage(id: PageId, hdr: seq<byte>, ghost m: Frames, ghost n: Frames) returns (p: HeapPage)
    requires |hdr| == META_OFF
    ensures fresh(p.bytes) && p.Valid() && p.id == id && p.Content() == EmptyPage
    ensures p.bytes !in Arrays(m) && p.bytes !in Arrays(n)
    ensures Images(m) == old(Images(m)) && Images(n) == old(Images(n))
  {
    hide WellFormed, View, Images;
    ghost var frames := Arrays(m) + Arrays(n);
    var bytes := new byte[PAGE_SIZE](_ => 0);
    assert bytes !in frames;
    hide Arrays;
    p := new HeapPage(id, bytes);
    p.Init(hdr);
  }

  /** Only the bytes of page `x` of `m` are changed. */
  method InsertInto(m: Frames, n: Frames, x: PageId, data: seq<byte>, xid: nat) returns (err: int)
    requires Shelved(m) && Arrays(m) !! Arrays(n) && x in m && m[x].Valid() && xid < U64 && |data| < U16
    modifies m[x].bytes
    ensures Images(m) == old(Images(m))[x := m[x].bytes[..]] && Images(n) == old(Images(n)) && m[x].Valid()
    ensures m[x].Content() == if |data| <= PAGE_SIZE && HasRoom(old(m[x].Content()), |data|)
                              then Inserted(old(m[x].Content()), Tuple(xid, 0, 0, data)) else old(m[x].Content())
  {
    hide WellFormed, View;
    var slot;
    err, slot := m[x].InsertTuple(data, xid, 0, 0);
  }

  method DeleteFrom(m: Frames, n: Frames, tid: Tid, xid: nat) returns (err: int)
    requires Shelved(m) && Arrays(m) !! Arrays(n) && tid.page in m && m[tid.page].Valid() && xid < U64
    modifies m[tid.page].bytes
    ensures Images(m) == old(Images(m))[tid.page := m[tid.page].bytes[..]] && Images(n) == old(Images(n)) && m[tid.page].Valid()
    ensures m[tid.page].Content() == if IsLive(old(m[tid.page].Content()), tid.slot)
                                     then Deleted(old(m[tid.page].Content()), tid.slot, xid) else old(m[tid.page].Content())
  {
    hide WellFormed, View;
    err := m[tid.page].DeleteTuple(tid.slot, xid);
  }

  method UpdateIn(m: Frames, n: Frames, step: Step) returns (err: int)
    requires Shelved(m) && Shelved(n) && Arrays(m) !! Arrays(n) && step.Update? && step.tid.page in m && step.undoId in n
    requires m[step.tid.page].Valid() && n[step.undoId].Valid() && step.xid < U64 && |step.data| < U16
    modifies m[step.tid.page].bytes, n[step.undoId].bytes
    ensures Images(m) == old(Images(m))[step.tid.page := m[step.tid.page].bytes[..]] && m[step.tid.page].Valid()
    ensures Images(n) == old(Images(n))[step.undoId := n[step.undoId].bytes[..]] && n[step.undoId].Valid()
    ensures var o := Updated(old(m[step.tid.page].Content()), step.tid, old(n[step.undoId].Content()), step.undoId, step.data, step.xid, step.owner);
      m[step.tid.page].Content() == o.target && n[step.undoId].Content() == o.undo
  {
    hide WellFormed, View, Updated;
    assert m[step.tid.page].bytes in Arrays(m) && n[step.undoId].bytes in Arrays(n);
    var slot;
    err, slot := UpdateTuple(m[step.tid.page], step.tid.slot, step.data, step.xid, step.owner, n[step.undoId]);
  }

  class RowStore {
    var rows: Frames
    var undo: Frames

    /** The byte arrays of all pages. */
    ghost var repr: set<array<byte>>

    ghost predicate Valid()
      reads this, repr
    {
      && repr == Arrays(rows) + Arrays(undo)
      && Shelved(rows) && Shelved(undo) && Arrays(rows) !! Arrays(undo)
      && Formed(Images(rows)) && Formed(Images(undo))
    }

    ghost function Snapshot(): Store
      requires Valid()
      reads this, repr
    {
      Store(Views(Images(rows)), Views(Images(undo)))
    }

    constructor ()
      ensures Valid() && Snapshot() == Store(map[], map[]) && repr == {}
    {
      rows, undo, repr := map[], map[], {};
    }

    method AddPage(id: PageId, hdr: seq<byte>, ofUndo: bool, ghost s: Store)
      requires Valid() && Snapshot() == s && 0 < id < U48 && id !in (if ofUndo then s.undo else s.rows) && |hdr| == META_OFF
      modifies this
      ensures Valid() && fresh(repr - old(repr))
      ensures Snapshot() == if ofUndo then s.(undo := s.undo[id := EmptyPage]) else s.(rows := s.rows[id := EmptyPage])
    {
      hide WellFormed, View, EmptyPage, Views, Formed, Shelved, Images, Arrays, HeapPage.Valid, HeapPage.Content;
      SameIds(rows);
      SameIds(undo);
      var p := MakePage(id, hdr, rows, undo);
      if ofUndo {
        ShelveUndo(id, p);
      } else {
        ShelveRow(id, p);
      }
    }

    method ShelveRow(id: PageId, p: HeapPage)
      requires Valid() && 0 < id < U48 && id !in rows && p.Valid() && p.id == id && p.bytes !in Arrays(rows) + Arrays(undo)
      modifies this`rows, this`repr
      ensures Valid() && repr == old(repr) + {p.bytes} && Snapshot() == old(Snapshot()).(rows := old(Snapshot()).rows[id := p.Content()])
    {
      hide WellFormed, View, Views, Formed, Shelved, Images, Arrays, HeapPage.Valid, HeapPage.Content;
      Added(rows, id, p);
      rows, repr := rows[id := p], repr + {p.bytes};
    }

    method ShelveUndo(id: PageId, p: HeapPage)
      requires Valid() && 0 < id < U48 && id !in undo && p.Valid() && p.id == id && p.bytes !in Arrays(rows) + Arrays(undo)
      modifies this`undo, this`repr
      ensures Valid() && repr == old(repr) + {p.bytes} && Snapshot() == old(Snapshot()).(undo := old(Snapshot()).undo[id := p.Content()])
    {
      hide WellFormed, View, Views, Formed, Shelved, Images, Arrays, HeapPage.Valid, HeapPage.Content;
      Added(undo, id, p);
      undo, repr := undo[id := p], repr + {p.bytes};
    }

    method InsertRow(step: Step, ghost s: Store)
      requires Valid() && Snapshot() == s && step.Insert? && Enabled(s, step) && |step.data| < U16
      modifies repr
      ensures Valid() && Snapshot() == Apply(s, step)
    {
      hide WellFormed, View, Formed, Views, Shelved, Images, Arrays;
      var page, data, xid := step.page, step.data, step.xid;
      ghost var ri := Images(rows);
      FormedAt(ri, page);
      InArrays(rows, page);
      var err := InsertInto(rows, undo, page, data, xid);
      OneView(ri, page, rows[page].bytes[..]);
      NoRoomLong(ri[page], data);
      assert s.rows[page := s.rows[page]] == s.rows;
    }

    method DeleteRow(step: Step, ghost s: Store)
      requires Valid() && Snapshot() == s && step.Delete? && Enabled(s, step)
      modifies repr
      ensures Valid() && Snapshot() == Apply(s, step)
    {
      hide WellFormed, View, Formed, Views, Shelved, Images, Arrays;
      var tid, xid := step.tid, step.xid;
      ghost var ri := Images(rows);
      FormedAt(ri, tid.page);
      InArrays(rows, tid.page);
      var err := DeleteFrom(rows, undo, tid, xid);
      OneView(ri, tid.page, rows[tid.page].bytes[..]);
      assert s.rows[tid.page := s.rows[tid.page]] == s.rows;
    }

    method UpdateRow(step: Step, ghost s: Store)
      requires Valid() && Snapshot() == s && step.Update? && Enabled(s, step) && |step.data| < U16
      modifies repr
      ensures Valid() && Snapshot() == Apply(s, step)
    {
      hide WellFormed, View, Updated, Formed, Views, Shelved, Images, Arrays;
      var tid, undoId := step.tid, step.undoId;
      ghost var ri, ui := Images(rows), Images(undo);
      FormedAt(ri, tid.page);
      FormedAt(ui, undoId);
      InArrays(rows, tid.page);
      InArrays(undo, undoId);
      var err := UpdateIn(rows, undo, step);
      OneView(ri, tid.page, rows[tid.page].bytes[..]);
      OneView(ui, undoId, undo[undoId].bytes[..]);
    }

    /** One operation on the pages in memory is that operation on what they stand for. */
    method Perform(step: Step, hdr: seq<byte>)
      requires Valid() && Enabled(Snapshot(), step) && |hdr| == META_OFF
      requires (step.Insert? || step.Update?) ==> |step.data| < U16
      modifies this, repr
      ensures Valid() && fresh(repr - old(repr))
      ensures Snapshot() == Apply(old(Snapshot()), step)
    {
      hide Shelved, Formed, Views, Images, Arrays, Updated, EmptyPage;
      match step {
        case NewPage(id) => AddPage(id, hdr, false, Snapshot());
        case NewUndoPage(id) => AddPage(id, hdr, true, Snapshot());
        case Insert(_, _, _) => InsertRow(step, Snapshot());
        case Delete(_, _) => DeleteRow(step, Snapshot());
        case Update(_, _, _, _, _) => UpdateRow(step, Snapshot());
      }
    }

    /** Any run of operations: the bytes hold exactly the rows of the write log, each with
        its whole history. */
    method Run(steps: seq<Step>, hdr: seq<byte>, ghost log: Log)
      requires Valid() && Agrees(Snapshot(), log) && IsRun(Snapshot(), steps) && |hdr| == META_OFF
      requires forall i | 0 <= i < |steps| :: (steps[i].Insert? || steps[i].Update?) ==> |steps[i].data| < U16
      modifies this, repr
      ensures Valid() && fresh(repr - old(repr))
      ensures Snapshot() == RunStore(old(Snapshot()), steps)
      ensures Agrees(Snapshot(), RunLog(old(Snapshot()), log, steps))
    {
      hide Valid, Snapshot, Apply, Enabled, Agrees, LogStep, RunLog, IsRun, RunStore;
      RunKeepsHistory(Snapshot(), log, steps);
      RunAll(steps, hdr, Snapshot());
    }

    method RunAll(steps: seq<Step>, hdr: seq<byte>, ghost s: Store)
      requires Valid() && Snapshot() == s && IsRun(s, steps) && |hdr| == META_OFF
      requires forall i | 0 <= i < |steps| :: (steps[i].Insert? || steps[i].Update?) ==> |steps[i].data| < U16
      modifies this, repr
      ensures Valid() && fresh(repr - old(repr)) && Snapshot() == RunStore(s, steps)
      decreases |steps|
    {
      hide Valid, Snapshot, Apply, Enabled, IsRun, RunStore;
      if steps == [] {
        RunEnd(s, steps);
      } else {
        RunStep(s, steps);
        Perform(steps[0], hdr);
        RunAll(steps[1..], hdr, Snapshot());
      }
    }
  }

  lemma RunStep(s: Store, steps: seq<Step>)
    requires IsRun(s, steps) && steps != []
    ensures Enabled(s, steps[0]) && IsRun(Apply(s, steps[0]), steps[1..])
    ensures RunStore(s, steps) == RunStore(Apply(s, steps[0]), steps[1..])
  {
    hide Enabled, Apply;
  }

  lemma RunEnd(s: Store, steps: seq<Step>)
    requires steps == [] && IsRun(s, steps)
    ensures RunStore(s, steps) == s
  {
  }

  lemma FormedAt(im: map<PageId, seq<byte>>, x: PageId)
    requires Formed(im) && x in im
    ensures WellFormed(im[x]) && Views(im)[x] == View(im[x])
  {
    hide WellFormed, View;
  }

  /** A row longer than a page has no room anywhere. */
  lemma NoRoomLong(b: seq<byte>, data: seq<byte>)
    requires WellFormed(b)
    ensures |data| > PAGE_SIZE ==> !HasRoom(View(b), |data|)
  {
    hide WellFormed, View;
    ViewOk(b);
  }

  /** Pages in shape without live rows are a start for any run. */
  lemma NoRowsAgree(store: RowStore)
    requires store.Valid() && forall t :: !LiveAt(store.Snapshot().rows, t)
    ensures Agrees(store.Snapshot(), map[])
  {
    hide WellFormed, View, Views, Formed, LiveAt;
    ViewsOk(Images(store.rows));
    ViewsOk(Images(store.undo));
  }
}
