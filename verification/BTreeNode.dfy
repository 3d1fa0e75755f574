/** B-tree nodes as they are worked on: in-memory copies with fixed arrays, changed
    in place and written back to their page. */
module BTreeNode {
  import opened BTreeModel
  import opened BTreePages

  /** The bytes of a B-tree page as stored: whole arrays, used and unused part. */
  datatype PageData = PageData(level: nat, keyCount: nat, keys: seq<Key>, slots: seq<PageId>, next: PageId, prev: PageId)

  const ZERO_PAGE := PageData(0, 0, [0, 0, 0, 0], [0, 0, 0, 0, 0], 0, 0)

  function SlotCount(level: nat, keyCount: nat): nat { if level == 0 then keyCount else keyCount + 1 }

  predicate ValidData(d: PageData) {
    |d.keys| == MAX_KEYS && |d.slots| == MAX_KEYS + 1 && d.keyCount <= MAX_KEYS
  }

  function ViewOf(d: PageData): View
    requires ValidData(d)
  {
    View(d.level, d.keys[..d.keyCount], d.slots[..SlotCount(d.level, d.keyCount)], d.next, d.prev)
  }

  class Node {
    const id: PageId
    var level: nat
    var keyCount: nat
    const keys: array<Key>
    const slots: array<PageId>
    var next: PageId
    var prev: PageId

    ghost predicate Valid()
      reads this
    {
      keys.Length == MAX_KEYS && slots.Length == MAX_KEYS + 1 && keys != slots && keyCount <= MAX_KEYS
    }

    ghost function Shown(): View
      requires Valid()
      reads this, keys, slots
    {
      View(level, keys[..keyCount], slots[..SlotCount(level, keyCount)], next, prev)
    }

    ghost function Footprint(): set<object> { {this, keys, slots} }

    constructor (id: PageId, d: PageData)
      requires ValidData(d)
      ensures Valid() && fresh(this) && fresh(keys) && fresh(slots)
      ensures this.id == id && Shown() == ViewOf(d)
    {
      this.id := id;
      level, keyCount, next, prev := d.level, d.keyCount, d.next, d.prev;
      keys := new Key[MAX_KEYS](i requires 0 <= i < MAX_KEYS => d.keys[i]);
      slots := new PageId[MAX_KEYS + 1](i requires 0 <= i < MAX_KEYS + 1 => d.slots[i]);
      new;
      assert keys[..keyCount] == d.keys[..keyCount];
      assert slots[..SlotCount(level, keyCount)] == d.slots[..SlotCount(level, keyCount)];
    }
  }

  /** The used part of a node, field by field. */
  lemma ShownFields(n: Node)
    requires n.Valid()
    ensures n.keys.Length == MAX_KEYS && n.slots.Length == MAX_KEYS + 1 && n.keyCount <= MAX_KEYS
    ensures var v := n.Shown();
      && v.level == n.level && v.next == n.next && |v.keys| == n.keyCount && |v.slots| == SlotCount(n.level, n.keyCount)
      && |v.slots| <= MAX_KEYS + 1 && (forall i | 0 <= i < |v.slots| :: n.slots[i] == v.slots[i])
  {
  }

  ghost predicate Apart(a: Node, b: Node) { a.Footprint() !! b.Footprint() }

  /** The page store behind the buffer pool, as far as B-tree pages go. */
  class PageStore {
    var pages: map<PageId, PageData>
    var freed: set<PageId>

    ghost predicate Valid()
      reads this
    {
      forall id | id in pages :: ValidData(pages[id])
    }

    constructor (pages: map<PageId, PageData>)
      requires forall id | id in pages :: ValidData(pages[id])
      ensures Valid() && this.pages == pages && freed == {}
    {
      this.pages, freed := pages, {};
    }

    ghost function Views(): (s: map<PageId, View>)
      requires Valid()
      reads this
      ensures s.Keys == pages.Keys
    {
      map id | id in pages :: ViewOf(pages[id])
    }

    method Load(id: PageId) returns (n: Node)
      requires Valid() && id in pages
      ensures n.Valid() && fresh(n.Footprint()) && n.id == id && n.Shown() == Views()[id]
    {
      n := new Node(id, pages[id]);
    }

    method Store(n: Node)
      requires Valid() && n.Valid() && n.id in pages
      modifies this`pages
      ensures Valid() && pages.Keys == old(pages.Keys)
      ensures Views() == old(Views())[n.id := n.Shown()]
    {
      pages := pages[n.id := PageData(n.level, n.keyCount, n.keys[..], n.slots[..], n.next, n.prev)];
      assert ViewOf(pages[n.id]) == n.Shown();
    }

    /** A freed page is zeroed and put on the free list; it is no longer a tree page. */
    method Free(id: PageId)
      requires Valid() && id in pages
      modifies this
      ensures Valid() && freed == old(freed) + {id} && pages.Keys == old(pages.Keys)
      ensures Views() == old(Views())[id := ViewOf(ZERO_PAGE)]
    {
      ghost var s := Views();
      pages := pages[id := ZERO_PAGE];
      freed := freed + {id};
      hide ViewOf;
      assert Views() == s[id := ViewOf(ZERO_PAGE)];
    }
  }

  // --------------------------------------------------- shifting in place

  /** a[lo..hi] := a[lo + 1..hi + 1] */
  method ShiftDown(a: array<nat>, lo: nat, hi: nat)
    requires lo <= hi < a.Length
    modifies a
    ensures a[..] == old(a[..lo] + a[lo + 1..hi + 1] + a[hi..])
  {
    for i := lo to hi
      invariant forall j | 0 <= j < lo :: a[j] == old(a[j])
      invariant forall j | lo <= j < i :: a[j] == old(a[j + 1])
      invariant forall j | i <= j < a.Length :: a[j] == old(a[j])
    {
      a[i] := a[i + 1];
    }
  }

  /** a[1..n + 1] := a[..n] */
  method ShiftUp(a: array<nat>, n: nat)
    requires n < a.Length
    modifies a
    ensures a[..] == old(a[..1] + a[..n] + a[n + 1..])
  {
    var i := n;
    while i > 0
      invariant 0 <= i <= n
      invariant forall j | 0 <= j <= i :: a[j] == old(a[j])
      invariant forall j | i < j <= n :: a[j] == old(a[j - 1])
      invariant forall j | n < j < a.Length :: a[j] == old(a[j])
    {
      a[i] := a[i - 1];
      i := i - 1;
    }
  }

  /** a[at..at + n] := b[..n] */
  method CopyIn(a: array<nat>, at: nat, b: array<nat>, n: nat)
    requires at + n <= a.Length && n <= b.Length && a != b
    modifies a
    ensures a[..] == old(a[..at] + b[..n] + a[at + n..])
  {
    for i := 0 to n
      invariant forall j | 0 <= j < i :: a[at + j] == b[j]
      invariant forall j | 0 <= j < at || at + i <= j < a.Length :: a[j] == old(a[j])
    {
      a[at + i] := b[i];
    }
  }
}
