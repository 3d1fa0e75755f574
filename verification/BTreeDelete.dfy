/** Deleting a key: which entries the tree loses. */
module BTreeDelete {
  import opened Basics
  import opened BTreeModel
  import opened BTreeRepair
  import opened BTreePages
  import opened BTreeNode
  import opened BTreeMoves
  import opened BTreeUnderflow
  import opened BTreeCursor
  import opened BTreeSearch

  type Pair = (Key, PageId)

  // ---------------------------------------------------- entries in order

  ghost predicate Rising(es: seq<Pair>) { forall i, j | 0 <= i < j < |es| :: es[i].0 < es[j].0 }

  lemma {:induction false} EntryIn(xs: seq<Item>, e: Pair)
    requires e in Entries(xs)
    ensures Entry(e.0, e.1) in xs
    decreases |xs|
  {
    if xs[0] != Entry(e.0, e.1) {
      EntryIn(xs[1..], e);
    }
  }

  /** The entries of ordered items have rising keys. */
  lemma {:induction false} EntriesRise(xs: seq<Item>)
    requires Ordered(xs)
    ensures Rising(Entries(xs))
    decreases |xs|
  {
    if xs != [] {
      OrderedConcat(xs[..1], xs[1..]);
      assert xs[..1] + xs[1..] == xs;
      EntriesRise(xs[1..]);
      if xs[0].Entry? {
        var es := Entries(xs[1..]);
        forall j | 0 <= j < |es|
          ensures xs[0].key < es[j].0
        {
          EntryIn(xs[1..], es[j]);
          var k :| 0 <= k < |xs[1..]| && xs[1..][k] == Entry(es[j].0, es[j].1);
          assert Before(xs[0], xs[k + 1]);
        }
      }
    }
  }

  /** The entries without those of a key. */
  ghost function Without(es: seq<Pair>, key: Key): seq<Pair> {
    if es == [] then [] else (if es[0].0 == key then [] else [es[0]]) + Without(es[1..], key)
  }

  lemma {:induction false} WithoutNone(es: seq<Pair>, key: Key)
    requires forall i | 0 <= i < |es| :: es[i].0 != key
    ensures Without(es, key) == es
    decreases |es|
  {
    if es != [] {
      WithoutNone(es[1..], key);
    }
  }

  /** Keys that rise: exactly one entry goes. */
  lemma {:induction false} WithoutAt(es: seq<Pair>, k: nat)
    requires Rising(es) && k < |es|
    ensures Without(es, es[k].0) == es[..k] + es[k + 1..]
    decreases |es|
  {
    var key := es[k].0;
    if k == 0 {
      WithoutNone(es[1..], key);
    } else {
      WithoutAt(es[1..], k - 1);
      assert es[1..][k - 1] == es[k] && es[1..][..k - 1] == es[1..k] && es[1..][k..] == es[k + 1..];
      assert es[..k] == [es[0]] + es[1..k];
    }
  }

  lemma WithoutLength(es: seq<Pair>, key: Key)
    requires Rising(es)
    ensures |Without(es, key)| >= |es| - 1
  {
    if k :| 0 <= k < |es| && es[k].0 == key {
      WithoutAt(es, k);
    } else {
      WithoutNone(es, key);
    }
  }

  // ---------------------------------------------- a node changed in place

  lemma {:induction false} ItemsAround(t: Tree, h: nat, lo: nat, path: seq<nat>, u: Tree)
    requires Ok(t, h, lo) && IsPath(t, path)
    ensures Items(Replace(t, path, u)) == ItemsBefore(t, path) + Items(u) + ItemsAfter(t, path)
    decreases t
  {
    if path != [] {
      var p := path[0];
      ItemsAround(t.kids[p], h - 1, MIN_KEYS, path[1..], u);
      ItemsKid(t, p, Replace(t.kids[p], path[1..], u));
      BTreeModel.Regroup(Left(t.keys, t.kids, p), ItemsBefore(t.kids[p], path[1..]), Items(u),
        ItemsAfter(t.kids[p], path[1..]), Tail(t.keys[p..], t.kids[p + 1..]));
    }
  }

  /** The entries left and right of a node are there whatever the node is. */
  lemma EntriesAround(t: Tree, h: nat, lo: nat, path: seq<nat>, u: Tree)
    requires Ok(t, h, lo) && IsPath(t, path)
    ensures var b, a := Entries(ItemsBefore(t, path)), Entries(ItemsAfter(t, path));
      Entries(Items(t)) == b + Entries(Items(At(t, path))) + a && Entries(Items(Replace(t, path, u))) == b + Entries(Items(u)) + a
  {
    hide Items, Entries, Ok, IsPath;
    ItemsAround(t, h, lo, path, u);
    ItemsAround(t, h, lo, path, At(t, path));
    ReplaceSame(t, path);
    var b, a := ItemsBefore(t, path), ItemsAfter(t, path);
    EntriesConcat(b + Items(u), a);
    EntriesConcat(b, Items(u));
    EntriesConcat(b + Items(At(t, path)), a);
    EntriesConcat(b, Items(At(t, path)));
  }

  /** The node after a removal at `pos`, as the code does it. */
  ghost function Cut(u: Tree, pos: nat): Tree
    requires Sized(u) && pos < |u.keys|
  {
    var keys := u.keys[..pos] + u.keys[pos + 1..];
    match u
    case Leaf(id, _, vals) => Leaf(id, keys, if pos + 1 < |u.keys| then vals[..pos + 1] + vals[pos + 2..] else vals[..pos])
    case Inner(id, _, kids) => Inner(id, keys, kids[..pos + 1] + kids[pos + 2..])
  }

  // ------------------------------------------------------------ in a leaf

  ghost function Zip(keys: seq<Key>, vals: seq<PageId>): (r: seq<Pair>)
    requires |keys| == |vals|
    ensures |r| == |keys| && forall i | 0 <= i < |r| :: r[i] == (keys[i], vals[i])
  {
    seq(|keys|, i requires 0 <= i < |keys| => (keys[i], vals[i]))
  }

  lemma {:induction false} EntriesZip(keys: seq<Key>, vals: seq<PageId>)
    requires |keys| == |vals|
    ensures Entries(LeafItems(keys, vals)) == Zip(keys, vals)
    decreases |keys|
  {
    var xs := LeafItems(keys, vals);
    if keys != [] {
      assert xs[1..] == LeafItems(keys[1..], vals[1..]);
      EntriesZip(keys[1..], vals[1..]);
      assert Zip(keys, vals) == [(keys[0], vals[0])] + Zip(keys[1..], vals[1..]);
    }
  }

  lemma LeafEntries(u: Tree)
    requires u.Leaf? && Sized(u)
    ensures Entries(Items(u)) == Zip(u.keys, u.vals)
  {
    EntriesZip(u.keys, u.vals);
    EntriesConcat([Mark(u.id)], LeafItems(u.keys, u.vals));
    assert Entries([Mark(u.id)]) == [];
  }

  /** The slot of the next key is dropped: right only for the last key, or for equal slots. */
  lemma CutZip(keys: seq<Key>, vals: seq<PageId>, pos: nat)
    requires |keys| == |vals| && pos < |keys|
    ensures var es := Zip(keys, vals);
      var cut := Zip(keys[..pos] + keys[pos + 1..], if pos + 1 < |keys| then vals[..pos + 1] + vals[pos + 2..] else vals[..pos]);
      cut == es[..pos] + es[pos + 1..] <==> pos + 1 == |keys| || vals[pos] == vals[pos + 1]
  {
    var es := Zip(keys, vals);
    var keys' := keys[..pos] + keys[pos + 1..];
    var vals' := if pos + 1 < |keys| then vals[..pos + 1] + vals[pos + 2..] else vals[..pos];
    var cut, right := Zip(keys', vals'), es[..pos] + es[pos + 1..];
    assert |cut| == |right|;
    forall i | 0 <= i < |cut| && i != pos
      ensures cut[i] == right[i]
    {
    }
    if pos + 1 < |keys| {
      assert cut[pos] == (keys[pos + 1], vals[pos]) && right[pos] == (keys[pos + 1], vals[pos + 1]);
    }
  }

  lemma OkSized(u: Tree, h: nat, lo: nat)
    requires Ok(u, h, lo)
    ensures Sized(u)
  {
  }

  lemma LeafRemoval(es: seq<Pair>, b: seq<Pair>, zip: seq<Pair>, a: seq<Pair>, pos: nat, cut: seq<Pair>)
    requires es == b + zip + a && Rising(es) && pos < |zip|
    ensures b + cut + a == Without(es, zip[pos].0) <==> cut == zip[..pos] + zip[pos + 1..]
  {
    var k, right := |b| + pos, zip[..pos] + zip[pos + 1..];
    assert es[k] == zip[pos];
    WithoutAt(es, k);
    hide Without;
    assert es[..k] + es[k + 1..] == b + right + a by {
      assert es[..k] == b + zip[..pos];
      assert es[k + 1..] == zip[pos + 1..] + a;
    }
    if b + cut + a == b + right + a {
      SameMiddle(b, cut, right, a);
    }
  }

  lemma SameMiddle(b: seq<Pair>, x: seq<Pair>, y: seq<Pair>, a: seq<Pair>)
    requires b + x + a == b + y + a
    ensures x == y
  {
    assert |x| == |y|;
    assert (b + x + a)[|b|..|b| + |x|] == x && (b + y + a)[|b|..|b| + |x|] == y;
  }

  // -------------------------------------------------------- at a separator

  lemma {:induction false} TwoEntries(t: Tree, h: nat)
    requires Ok(t, h, MIN_KEYS)
    ensures |Entries(Items(t))| >= 2
    decreases t
  {
    if t.Leaf? {
      LeafEntries(t);
    } else {
      TwoEntries(t.kids[0], h - 1);
      EntriesConcat(Items(t.kids[0]), Tail(t.keys, t.kids[1..]));
    }
  }

  /** A separator removed takes the subtree to its right with it. */
  lemma CutInner(u: Tree, h: nat, lo: nat, pos: nat)
    requires Ok(u, h, lo) && u.Inner? && pos < |u.keys|
    ensures Sized(u) && |Entries(Items(Cut(u, pos)))| == |Entries(Items(u))| - |Entries(Items(u.kids[pos + 1]))|
  {
    hide Items, Tail, Entries;
    var keys, kids := u.keys, u.kids;
    var x, z := Items(kids[0]) + Tail(keys[..pos], kids[1..pos + 1]), Tail(keys[pos + 1..], kids[pos + 2..]);
    ItemsAt(u.id, keys, kids, pos + 1);
    assert Items(u) == x + [Sep(keys[pos])] + Items(kids[pos + 1]) + z by {
      assert Left(keys, kids, pos + 1) == x + [Sep(keys[pos])];
    }
    ItemsCut(u, pos);
    EntriesConcat(x, z);
    EntriesConcat(x + [Sep(keys[pos])] + Items(kids[pos + 1]), z);
    EntriesConcat(x + [Sep(keys[pos])], Items(kids[pos + 1]));
    EntriesConcat(x, [Sep(keys[pos])]);
    NoEntries(keys[pos]);
  }

  lemma NoEntries(sep: Key)
    ensures Entries([Sep(sep)]) == []
  {
  }

  lemma ItemsCut(u: Tree, pos: nat)
    requires u.Inner? && Sized(u) && pos < |u.keys|
    ensures Items(Cut(u, pos)) == Items(u.kids[0]) + Tail(u.keys[..pos], u.kids[1..pos + 1]) + Tail(u.keys[pos + 1..], u.kids[pos + 2..])
  {
    var c := Cut(u, pos);
    TailSplit(u.keys[..pos], u.kids[1..pos + 1], u.keys[pos + 1..], u.kids[pos + 2..]);
    assert c.kids[0] == u.kids[0] && c.kids[1..] == u.kids[1..pos + 1] + u.kids[pos + 2..];
    assert Items(c) == Items(c.kids[0]) + Tail(c.keys, c.kids[1..]);
    hide Items, Tail;
  }

  // -------------------------------------------------------- what is lost

  /** A removal takes exactly the entry of its key out of the tree if and only if it is made
      in a leaf, and there at the last entry or at one that has the slot of the next. At a
      separator it takes a whole subtree. */
  lemma RemovalRight(t: Tree, h: nat, lo: nat, path: seq<nat>, pos: nat)
    requires Ok(t, h, lo) && Ordered(Items(t)) && IsPath(t, path) && pos < |At(t, path).keys|
    ensures var u := At(t, path);
      && Sized(u)
      && (Entries(Items(Replace(t, path, Cut(u, pos)))) == Without(Entries(Items(t)), u.keys[pos])
          <==> u.Leaf? && (pos + 1 == |u.keys| || u.vals[pos] == u.vals[pos + 1]))
      && (u.Inner? ==> |Entries(Items(Replace(t, path, Cut(u, pos))))| <= |Entries(Items(t))| - 2)
  {
    hide Items, Entries, Ok, IsPath, Ordered, Without, Rising, Cut;
    var u, hu := At(t, path), h - |path|;
    OkAt(t, h, lo, path);
    OkSized(u, hu, if path == [] then lo else MIN_KEYS);
    EntriesRise(Items(t));
    EntriesAround(t, h, lo, path, Cut(u, pos));
    if u.Leaf? {
      LeafCutEntries(u, pos);
      LeafRemoval(Entries(Items(t)), Entries(ItemsBefore(t, path)), Zip(u.keys, u.vals), Entries(ItemsAfter(t, path)), pos,
                  Entries(Items(Cut(u, pos))));
    } else {
      CutInner(u, hu, if path == [] then lo else MIN_KEYS, pos);
      KidTwo(u, hu, if path == [] then lo else MIN_KEYS, pos + 1);
      WithoutLength(Entries(Items(t)), u.keys[pos]);
    }
  }

  lemma LeafCutEntries(u: Tree, pos: nat)
    requires u.Leaf? && Sized(u) && pos < |u.keys|
    ensures var es := Zip(u.keys, u.vals);
      && Entries(Items(u)) == es && es[pos].0 == u.keys[pos]
      && (Entries(Items(Cut(u, pos))) == es[..pos] + es[pos + 1..] <==> pos + 1 == |u.keys| || u.vals[pos] == u.vals[pos + 1])
  {
    hide Items, Entries, Zip;
    LeafEntries(u);
    LeafEntries(Cut(u, pos));
    CutZip(u.keys, u.vals, pos);
  }

  lemma KidTwo(u: Tree, h: nat, lo: nat, i: nat)
    requires Ok(u, h, lo) && u.Inner? && i < |u.kids|
    ensures |Entries(Items(u.kids[i]))| >= 2
  {
    hide Items, Entries;
    TwoEntries(u.kids[i], h - 1);
  }

  // -------------------------------------------------------------- on pages

  /** A node's page after a removal. */
  ghost function CutView(v: View, pos: nat): View
    requires SizedView(v) && pos < |v.keys|
  {
    if v.level > 0 then WithoutSep(v, pos) else WithNextSlotGone(v, pos)
  }

  lemma CutShows(v: View, u: Tree, h: nat, pos: nat)
    requires Shows(v, u, h) && Sized(u) && (h == 0 <==> u.Leaf?) && pos < |u.keys|
    ensures SizedView(v) && Shows(CutView(v, pos), Cut(u, pos), h)
  {
    if u.Inner? {
      RootsWithout(u.kids, pos, u.kids[pos]);
      assert u.kids[..pos] + [u.kids[pos]] + u.kids[pos + 2..] == u.kids[..pos + 1] + u.kids[pos + 2..];
    }
    hide RootIds;
  }

  /** Only one page differs. */
  ghost predicate ChangedOnly(s: map<PageId, View>, s': map<PageId, View>, id: PageId) {
    s'.Keys == s.Keys && forall x | x in s && x != id :: s'[x] == s[x]
  }

  lemma CutNodeStored(s: map<PageId, View>, s': map<PageId, View>, u: Tree, h: nat, lo: nat, pos: nat)
    requires Stored(s, u, h) && Ok(u, h, lo) && Distinct(Pages(u)) && pos < |u.keys| && Sized(u)
    requires ChangedOnly(s, s', u.id) && u.id in s && SizedView(s[u.id]) && pos < |s[u.id].keys| && s'[u.id] == CutView(s[u.id], pos)
    ensures Stored(s', Cut(u, pos), h)
  {
    hide Pages, Distinct, Ok, CutView, Stored;
    StoredParts(s, u, h);
    CutShows(s[u.id], u, h, pos);
    var c := Cut(u, pos);
    if u.Inner? {
      forall i | 0 <= i < |c.kids|
        ensures Stored(s', c.kids[i], h - 1)
      {
        var j := if i <= pos then i else i + 1;
        assert c.kids[i] == u.kids[j];
        StoredKid(s, u, h, j);
        KidAway(u, j, j);
        AllStored(s, u.kids[j], h - 1);
        StoredFrame(s, s', u.kids[j], h - 1);
      }
    }
    StoredNode(s', c, h);
  }

  lemma StoredParts(s: map<PageId, View>, u: Tree, h: nat)
    requires Stored(s, u, h)
    ensures u.id in s && Shows(s[u.id], u, h) && (u.Leaf? <==> h == 0)
  {
  }

  /** The pages after a removal anywhere hold the tree with that node cut. */
  lemma CutStored(s: map<PageId, View>, s': map<PageId, View>, t: Tree, h: nat, lo: nat, path: seq<nat>, pos: nat)
    requires Holds(s, t, h) && Ok(t, h, lo) && IsPath(t, path) && pos < |At(t, path).keys|
    requires var id := At(t, path).id;
      id in s && SizedView(s[id]) && pos < |s[id].keys| && ChangedOnly(s, s', id) && s'[id] == CutView(s[id], pos)
    ensures Sized(At(t, path)) && Stored(s', Replace(t, path, Cut(At(t, path), pos)), h)
  {
    hide Pages, Distinct, Ok, CutView, Stored, IsPath, Cut;
    var u, hu, lo' := At(t, path), h - |path|, if path == [] then lo else MIN_KEYS;
    OkAt(t, h, lo, path);
    OkSized(u, hu, lo');
    StoredAt(s, t, h, path);
    PathPages(t, path);
    DistinctPart(Pages(u), Pages(t));
    CutNodeStored(s, s', u, hu, lo', pos);
    AllStored(s, t, h);
    PagesOf(u);
    CutId(u, pos);
    assert forall x | x in Pages(t) && x !in Pages(u) :: SameNode(s, s', x) by {
      assert u.id in Pages(u);
    }
    StoredReplace(s, s', t, h, path, Cut(u, pos));
  }

  lemma CutId(u: Tree, pos: nat)
    requires Sized(u) && pos < |u.keys|
    ensures Cut(u, pos).id == u.id
  {
  }

  /** Searches for a key and removes it from the node where the search stops. The entries left
      are those from before without the key's, if and only if no separator has the key and it
      was the last in its leaf or had the slot of the next. When a separator has it, a whole
      subtree is lost. */
  method RemoveKey(store: PageStore, root: PageId, key: Key, ghost t: Tree, ghost h: nat)
    returns (ret: int, nodes: seq<Node>, positions: seq<nat>, ghost t': Tree)
    requires store.Valid() && Holds(store.Views(), t, h) && Ok(t, h, 0) && Ordered(Items(t)) && root == t.id
    modifies store
    ensures store.Valid() && store.freed == old(store.freed)
    ensures ret == ENOENT ==> !Occurs(Items(t), key)
    ensures ret != 0 ==> store.Views() == old(store.Views()) && t' == t && (ret == ENOENT || (ret == E2BIG && h >= MAX_DEPTH))
    ensures 0 < |nodes| == |positions| && IsPath(t, positions[..|nodes| - 1]) && forall n | n in nodes :: fresh(n) && fresh(n.keys) && fresh(n.slots)
    ensures ret == 0 ==> Occurs(Items(t), key) && (At(t, positions[..|nodes| - 1]).Inner? <==> Sep(key) in Items(t))
    ensures ret == 0 ==>
      var path, pos := positions[..|nodes| - 1], positions[|nodes| - 1]; var u := At(t, path);
      && Sized(u) && pos < |u.keys| && u.keys[pos] == key
      && u.id in old(store.Views()) && SizedView(old(store.Views())[u.id]) && old(store.Views())[u.id].keys == u.keys
      && t' == Replace(t, path, Cut(u, pos)) && Stored(store.Views(), t', h)
      && ChangedOnly(old(store.Views()), store.Views(), u.id) && store.Views()[u.id] == CutView(old(store.Views())[u.id], pos)
      && Cursor(store, t', nodes, positions)
    ensures ret == 0 ==>
      var u, pos := At(t, positions[..|nodes| - 1]), positions[|nodes| - 1];
      && (Entries(Items(t')) == Without(Entries(Items(t)), key)
          <==> Sep(key) !in Items(t) && (pos + 1 == |u.keys| || u.vals[pos] == u.vals[pos + 1]))
      && (Sep(key) in Items(t) ==> |Entries(Items(t'))| <= |Entries(Items(t))| - 2)
  {
    hide Holds, Ok, Items, Ordered, Occurs, Entries, Without, Cursor, IsPath, Stored, Cut, CutView, At, Replace, Node.Valid, Node.Shown,
      PageStore.Valid, PageStore.Views, ChangedOnly, SizedView;
    ret, nodes, positions, t' := FindAndCut(store, root, key, t, h);
    if ret == 0 {
      RemovalRight(t, h, 0, positions[..|nodes| - 1], positions[|nodes| - 1]);
    }
  }

  /** The same without what it means for the entries. */
  method FindAndCut(store: PageStore, root: PageId, key: Key, ghost t: Tree, ghost h: nat)
    returns (ret: int, nodes: seq<Node>, positions: seq<nat>, ghost t': Tree)
    requires store.Valid() && Holds(store.Views(), t, h) && Ok(t, h, 0) && Ordered(Items(t)) && root == t.id
    modifies store
    ensures store.Valid() && store.freed == old(store.freed)
    ensures ret == ENOENT ==> !Occurs(Items(t), key)
    ensures ret != 0 ==> store.Views() == old(store.Views()) && t' == t && (ret == ENOENT || (ret == E2BIG && h >= MAX_DEPTH))
    ensures 0 < |nodes| == |positions| && IsPath(t, positions[..|nodes| - 1]) && forall n | n in nodes :: fresh(n) && fresh(n.keys) && fresh(n.slots)
    ensures ret == 0 ==> Occurs(Items(t), key) && (At(t, positions[..|nodes| - 1]).Inner? <==> Sep(key) in Items(t))
    ensures ret == 0 ==>
      var path, pos := positions[..|nodes| - 1], positions[|nodes| - 1]; var u := At(t, path);
      && Sized(u) && pos < |u.keys| && u.keys[pos] == key
      && u.id in old(store.Views()) && SizedView(old(store.Views())[u.id]) && old(store.Views())[u.id].keys == u.keys
      && t' == Replace(t, path, Cut(u, pos)) && Stored(store.Views(), t', h)
      && ChangedOnly(old(store.Views()), store.Views(), u.id) && store.Views()[u.id] == CutView(old(store.Views())[u.id], pos)
      && Cursor(store, t', nodes, positions)
  {
    hide Holds, Ok, Items, Ordered, Occurs, Cursor, IsPath, Stored, Cut, CutView, LowerBound, Node.Valid, Node.Shown, PageStore.Valid, PageStore.Views;
    ghost var s := store.Views();
    t' := t;
    ret, nodes, positions := Search(store, root, key, t, h);
    CursorParts(store, t, nodes, positions);
    forall n | n in nodes
      ensures fresh(n) && fresh(n.keys) && fresh(n.slots)
    {
      assert fresh(n.Footprint());
    }
    if ret != EEXIST {
      ret := if ret == 0 then ENOENT else ret;
      return;
    }
    var node, pos := nodes[|nodes| - 1], positions[|nodes| - 1];
    ghost var path := positions[..|nodes| - 1];
    StopFacts(s, t, h, path, key);
    assert node in nodes;
    label before:
    CutNode(store, node, pos);
    CutStored(s, store.Views(), t, h, 0, path, pos);
    t' := Replace(t, path, Cut(At(t, path), pos));
    forall j | 0 <= j < |nodes| - 1
      ensures nodes[j].Valid() && nodes[j].Shown() == old@before(nodes[j].Shown()) && nodes[j].id != node.id
    {
      assert Apart(nodes[j], node);
      AboveStop(s, t, h, positions, |nodes| - 1, j);
    }
    CursorCut(store, t, nodes, positions, pos);
    ret := 0;
  }

  /** A page on the way is not the page where the search stops. */
  lemma AboveStop(s: map<PageId, View>, t: Tree, h: nat, positions: seq<nat>, n: nat, j: nat)
    requires Holds(s, t, h) && j < n <= |positions| && IsPath(t, positions[..n]) && IsPath(t, positions[..j])
    ensures At(t, positions[..j]).id != At(t, positions[..n]).id
  {
    hide Holds, IsPath;
    Ancestor(s, t, h, positions[..n], j);
    assert positions[..n][..j] == positions[..j];
    PagesOf(At(t, positions[..n]));
  }

  /** The cursor after its last node was cut and stored. */
  lemma CursorCut(store: PageStore, t: Tree, nodes: seq<Node>, positions: seq<nat>, pos: nat)
    requires store.Valid() && 0 < |nodes| == |positions| && Separate(nodes)
    requires forall j | 0 <= j < |nodes| :: IsPath(t, positions[..j]) && nodes[j].id == At(t, positions[..j]).id
    requires forall j | 0 <= j < |nodes| :: nodes[j].Valid() && nodes[j].id in store.pages && nodes[j].Shown() == store.Views()[nodes[j].id]
    requires var u := At(t, positions[..|nodes| - 1]); Sized(u) && pos < |u.keys|
    ensures var path := positions[..|nodes| - 1]; Cursor(store, Replace(t, path, Cut(At(t, path), pos)), nodes, positions)
  {
    hide IsPath, Node.Valid, Node.Shown, PageStore.Valid, PageStore.Views, Cut;
    var path := positions[..|nodes| - 1];
    CutId(At(t, path), pos);
    forall j | 0 <= j < |nodes|
      ensures var t' := Replace(t, path, Cut(At(t, path), pos)); IsPath(t', positions[..j]) && nodes[j].id == At(t', positions[..j]).id
    {
      ReplaceAt(t, path, Cut(At(t, path), pos), j);
      assert path[..j] == positions[..j];
    }
  }

  /** Removes at a position of a node, and stores the node. */
  method CutNode(store: PageStore, node: Node, pos: nat)
    requires store.Valid() && node.Valid() && node.id in store.pages && pos < |node.Shown().keys| && SizedView(node.Shown())
    modifies store`pages, node`keyCount, node.keys, node.slots
    ensures store.Valid() && node.Valid() && store.pages.Keys == old(store.pages.Keys)
    ensures node.Shown() == CutView(old(node.Shown()), pos) && store.Views() == old(store.Views())[node.id := node.Shown()]
  {
    ShownFields(node);
    hide Node.Shown, PageStore.Valid, PageStore.Views, WithoutSep, WithNextSlotGone;
    RemoveAt(node, pos);
    store.Store(node);
  }

  lemma CursorParts(store: PageStore, t: Tree, nodes: seq<Node>, positions: seq<nat>)
    requires store.Valid() && Cursor(store, t, nodes, positions)
    ensures |nodes| == |positions| && Separate(nodes)
    ensures forall j | 0 <= j < |nodes| ::
      && IsPath(t, positions[..j]) && nodes[j].id == At(t, positions[..j]).id
      && nodes[j].Valid() && nodes[j].id in store.pages && nodes[j].Shown() == store.Views()[nodes[j].id]
  {
    hide IsPath, Node.Valid, Node.Shown, PageStore.Valid, PageStore.Views;
  }

  /** The node where a search stops. */
  lemma StopFacts(s: map<PageId, View>, t: Tree, h: nat, path: seq<nat>, key: Key)
    requires Holds(s, t, h) && Ok(t, h, 0) && IsPath(t, path) && FoundAt(At(t, path).keys, key)
    ensures var u := At(t, path); var pos := LowerBound(u.keys, key);
      && Sized(u) && pos < |u.keys| && u.keys[pos] == key
      && u.id in s && SizedView(s[u.id]) && s[u.id].keys == u.keys && (s[u.id].level == 0 <==> u.Leaf?)
  {
    hide Ok, IsPath, Stored, LowerBound, Cut;
    var u := At(t, path);
    OkAt(t, h, 0, path);
    OkSized(u, h - |path|, if path == [] then 0 else MIN_KEYS);
    StoredAt(s, t, h, path);
    StoredParts(s, u, h - |path|);
    CutShows(s[u.id], u, h - |path|, LowerBound(u.keys, key));
  }

  // ------------------------------------------------- the rest of a delete

  /** The same item up to the slot of an entry. */
  predicate SameKey(x: Item, y: Item) { x == y || (x.Entry? && y.Entry? && x.key == y.key) }

  lemma SameOrder(x: Item, y: Item, z: Item)
    requires SameKey(x, y)
    ensures Before(x, z) ==> Before(y, z)
    ensures Before(z, x) ==> Before(z, y)
  {
  }

  /** Every item of `ys` has the key of one of `xs`. */
  ghost predicate Drawn(ys: seq<Item>, xs: seq<Item>) { forall j | 0 <= j < |ys| :: DrawnAt(ys[j], xs) }

  ghost predicate DrawnAt(y: Item, xs: seq<Item>) { exists i | 0 <= i < |xs| :: SameKey(xs[i], y) }

  lemma CrossDrawn(a: seq<Item>, xs: seq<Item>, ys: seq<Item>, b: seq<Item>)
    requires Drawn(ys, xs)
    ensures Cross(a, xs) ==> Cross(a, ys)
    ensures Cross(xs, b) ==> Cross(ys, b)
  {
    hide SameKey, Before;
    forall i, j | 0 <= j < |ys| && 0 <= i < |a| && Cross(a, xs)
      ensures Before(a[i], ys[j])
    {
      assert DrawnAt(ys[j], xs);
      var k :| 0 <= k < |xs| && SameKey(xs[k], ys[j]);
      assert Before(a[i], xs[k]);
      SameOrder(xs[k], ys[j], a[i]);
    }
    forall i, j | 0 <= j < |ys| && 0 <= i < |b| && Cross(xs, b)
      ensures Before(ys[j], b[i])
    {
      assert DrawnAt(ys[j], xs);
      var k :| 0 <= k < |xs| && SameKey(xs[k], ys[j]);
      assert Before(xs[k], b[i]);
      SameOrder(xs[k], ys[j], b[i]);
    }
  }

  /** Items replaced by some of the same keys keep the order of the whole. */
  lemma OrderedKeys(a: seq<Item>, xs: seq<Item>, ys: seq<Item>, b: seq<Item>)
    requires Ordered(a + xs + b) && Ordered(ys) && Drawn(ys, xs)
    ensures Ordered(a + ys + b)
  {
    hide Ordered, Cross, Drawn;
    Assoc(a, xs, b);
    Assoc(a, ys, b);
    OrderedConcat(a, xs + b);
    OrderedConcat(xs, b);
    CrossApart(a, xs, b);
    CrossDrawn(a, xs, ys, b);
    CrossApart(a, ys, b);
    OrderedConcat(ys, b);
    OrderedConcat(a, ys + b);
  }

  lemma CrossApart(a: seq<Item>, xs: seq<Item>, b: seq<Item>)
    ensures Cross(a, xs + b) <==> Cross(a, xs) && Cross(a, b)
  {
    hide Before;
    if Cross(a, xs + b) {
      forall i, j | 0 <= i < |a| && 0 <= j < |b|
        ensures Before(a[i], b[j])
      {
        assert Before(a[i], (xs + b)[|xs| + j]);
      }
      forall i, j | 0 <= i < |a| && 0 <= j < |xs|
        ensures Before(a[i], xs[j])
      {
        assert Before(a[i], (xs + b)[j]);
      }
    }
  }

  /** The place of the `j`-th item before the one at `pos + 1` was removed. */
  function Place(j: nat, pos: nat): nat { if j <= pos then j else j + 1 }

  lemma CutItems(xs: seq<Item>, ys: seq<Item>, pos: nat)
    requires |xs| == |ys| + 1 && Ordered(xs) && forall j | 0 <= j < |ys| :: SameKey(xs[Place(j, pos)], ys[j])
    ensures Ordered(ys) && Drawn(ys, xs)
  {
    hide SameKey, Before;
    forall j | 0 <= j < |ys|
      ensures DrawnAt(ys[j], xs)
    {
      assert SameKey(xs[Place(j, pos)], ys[j]);
    }
    forall i, j | 0 <= i < j < |ys|
      ensures Before(ys[i], ys[j])
    {
      var x, y := xs[Place(i, pos)], xs[Place(j, pos)];
      assert SameKey(x, ys[i]) && SameKey(y, ys[j]);
      assert Before(x, y);
      SameOrder(x, ys[i], y);
      SameOrder(y, ys[j], ys[i]);
    }
  }

  /** A cut leaf has some of the keys it had, in order. */
  lemma CutLeafItems(u: Tree, pos: nat)
    requires u.Leaf? && Sized(u) && pos < |u.keys| && Ordered(Items(u))
    ensures Ordered(Items(Cut(u, pos))) && Drawn(Items(Cut(u, pos)), Items(u))
  {
    hide Items, Ordered, Drawn, Cut;
    var c := Cut(u, pos);
    CutKeys(u, pos);
    LeafReads(u);
    LeafReads(c);
    LeafStarts(u);
    LeafStarts(c);
    CutItems(Items(u), Items(c), pos);
  }

  lemma LeafStarts(u: Tree)
    requires u.Leaf?
    ensures |Items(u)| > 0 && Items(u)[0] == Mark(u.id)
  {
  }

  lemma CutKeys(u: Tree, pos: nat)
    requires u.Leaf? && Sized(u) && pos < |u.keys|
    ensures var c := Cut(u, pos);
      && c.Leaf? && Sized(c) && c.id == u.id && |c.keys| == |u.keys| - 1
      && forall j | 0 < j <= |c.keys| :: c.keys[j - 1] == u.keys[Place(j, pos) - 1]
  {
  }

  lemma MarksAround(t: Tree, h: nat, lo: nat, path: seq<nat>, u: Tree)
    requires Ok(t, h, lo) && IsPath(t, path) && Marks(Items(u)) == Marks(Items(At(t, path)))
    ensures Marks(Items(Replace(t, path, u))) == Marks(Items(t))
  {
    hide Items, Marks, Ok, IsPath;
    ItemsAround(t, h, lo, path, u);
    ItemsAround(t, h, lo, path, At(t, path));
    ReplaceSame(t, path);
    var b, a := ItemsBefore(t, path), ItemsAfter(t, path);
    MarksConcat(b + Items(u), a);
    MarksConcat(b, Items(u));
    MarksConcat(b + Items(At(t, path)), a);
    MarksConcat(b, Items(At(t, path)));
  }

  lemma {:induction false} OkShort(t: Tree, h: nat, lo: nat, path: seq<nat>, u: Tree)
    requires Ok(t, h, lo) && IsPath(t, path) && path != [] && |path| <= h && Ok(u, h - |path|, 1)
    ensures OkBut(Replace(t, path, u), h, lo, path)
    decreases t
  {
    var k := t.kids[path[0]];
    if |path| > 1 {
      OkShort(k, h - 1, MIN_KEYS, path[1..], u);
    } else {
      assert path[1..] == [] && Replace(k, [], u) == u;
    }
  }

  /** After a removal in a leaf the pages hold a tree again, with the same pages and leaf
      order, that is short at most in that leaf. */
  lemma LeafCutHolds(s: map<PageId, View>, s': map<PageId, View>, t: Tree, h: nat, lo: nat, path: seq<nat>, pos: nat)
    requires Holds(s, t, h) && Ok(t, h, lo) && Ordered(Items(t)) && IsPath(t, path) && At(t, path).Leaf? && Sized(At(t, path))
    requires pos < |At(t, path).keys|
    requires var id := At(t, path).id;
      id in s && SizedView(s[id]) && pos < |s[id].keys| && ChangedOnly(s, s', id) && s'[id] == CutView(s[id], pos)
    ensures var t' := Replace(t, path, Cut(At(t, path), pos));
      && Holds(s', t', h) && Ordered(Items(t')) && Pages(t') == Pages(t) && t'.id == t.id
      && (if path == [] then Ok(t', h, 0) else OkBut(t', h, lo, path))
  {
    hide Items, Marks, Pages, Chain, Ordered, Ok, OkBut, IsPath, Stored, Distinct;
    var u := At(t, path);
    var c := Cut(u, pos);
    CutStored(s, s', t, h, lo, path, pos);
    CutKeys(u, pos);
    CutLinks(s[u.id], pos);
    OkAt(t, h, lo, path);
    LeafShort(u, h - |path|, if path == [] then lo else MIN_KEYS, pos);
    hide Cut, CutView;
    LeafMarks(u);
    LeafMarks(c);
    MarksAround(t, h, lo, path, c);
    PagesOf(u);
    PagesOf(c);
    PagesReplace(t, path, c);
    SumBack(Pages(t), Pages(u));
    AllStored(s, t, h);
    MarksDistinct(t);
    ChainFrame(s, s', Marks(Items(t)));
    LeafCutOrdered(t, h, lo, path, pos);
    ReplaceRoot(t, path, c);
    if path != [] {
      OkShort(t, h, lo, path, c);
    }
  }

  lemma CutLinks(v: View, pos: nat)
    requires SizedView(v) && pos < |v.keys|
    ensures CutView(v, pos).next == v.next && CutView(v, pos).prev == v.prev
  {
  }

  /** A leaf that had its two keys still has one. */
  lemma LeafShort(u: Tree, h: nat, lo: nat, pos: nat)
    requires Ok(u, h, lo) && u.Leaf? && Sized(u) && pos < |u.keys|
    ensures Ok(Cut(u, pos), h, 0) && (lo == MIN_KEYS ==> Ok(Cut(u, pos), h, 1))
  {
  }

  lemma LeafCutOrdered(t: Tree, h: nat, lo: nat, path: seq<nat>, pos: nat)
    requires Ok(t, h, lo) && Ordered(Items(t)) && IsPath(t, path) && At(t, path).Leaf? && Sized(At(t, path)) && pos < |At(t, path).keys|
    ensures Ordered(Items(Replace(t, path, Cut(At(t, path), pos))))
  {
    hide Items, Ordered, Ok, IsPath, Cut, Drawn;
    var u := At(t, path);
    var b, a := ItemsBefore(t, path), ItemsAfter(t, path);
    ItemsAround(t, h, lo, path, u);
    ItemsAround(t, h, lo, path, Cut(u, pos));
    ReplaceSame(t, path);
    OrderedConcat(b + Items(u), a);
    OrderedConcat(b, Items(u));
    CutLeafItems(u, pos);
    OrderedKeys(b, Items(u), Items(Cut(u, pos)), a);
  }

  /** Deletes a key that is no separator. What is left is a tree with all nodes within their
      bounds, ordered, its leaves doubly linked, exactly the pages that left it freed. Its
      entries are those from before without the key's, if and only if the key was the last
      in its leaf or had the slot of the next. */
  method Delete(store: PageStore, root: PageId, key: Key, ghost t: Tree, ghost h: nat)
    returns (ret: int, rootId: PageId, ghost path: seq<nat>, ghost pos: nat, ghost t': Tree, ghost h': nat)
    requires store.Valid() && Holds(store.Views(), t, h) && Ok(t, h, if h > 0 then 1 else 0) && Ordered(Items(t)) && root == t.id
    requires Sep(key) !in Items(t)
    modifies store
    ensures store.Valid() && rootId == t'.id
    ensures Holds(store.Views(), t', h') && Ok(t', h', if h' > 0 then 1 else 0) && Ordered(Items(t'))
    ensures (ret == 0 ==> Occurs(Items(t), key)) && (ret == ENOENT ==> !Occurs(Items(t), key))
    ensures ret != 0 && ret != ENOENT ==> ret == E2BIG && h >= MAX_DEPTH
    ensures ret != 0 ==> t' == t && h' == h && store.Views() == old(store.Views()) && store.freed == old(store.freed)
    ensures ret == 0 ==>
      && IsPath(t, path) && At(t, path).Leaf? && Sized(At(t, path)) && pos < |At(t, path).keys| && At(t, path).keys[pos] == key
      && Entries(Items(t')) == Entries(Items(Replace(t, path, Cut(At(t, path), pos))))
      && (Entries(Items(t')) == Without(Entries(Items(t)), key)
          <==> pos + 1 == |At(t, path).keys| || At(t, path).vals[pos] == At(t, path).vals[pos + 1])
    ensures forall x :: x in store.freed <==> x in old(store.freed) || (x in Pages(t) && x !in Pages(t'))
  {
    hide Holds, Ok, OkBut, Items, Ordered, Occurs, Entries, Pages, Cursor, IsPath, Stored, Cut, CutView, Without, At, Replace,
      Node.Valid, Node.Shown, PageStore.Valid, PageStore.Views, ChangedOnly, SizedView;
    ghost var s, lo := store.Views(), if h > 0 then 1 else 0;
    OkWeaker(t, h, lo, 0);
    var nodes, positions;
    ghost var t1;
    ret, nodes, positions, t1 := RemoveKey(store, root, key, t, h);
    path, pos := positions[..|nodes| - 1], positions[|nodes| - 1];
    rootId, t', h' := root, t, h;
    if ret == 0 {
      LeafCutHolds(s, store.Views(), t, h, lo, path, pos);
      RootOnly(t, h, lo, path);
      RemovalRight(t, h, lo, path, pos);
      assert forall i | 0 <= i < |nodes| :: nodes[i] in nodes;
      rootId, t', h' := FinishDelete(store, nodes, positions, t1, h);
    }
  }

  /** A path that is not empty starts at an inner root. */
  lemma RootOnly(t: Tree, h: nat, lo: nat, path: seq<nat>)
    requires Ok(t, h, lo) && IsPath(t, path)
    ensures path != [] ==> h > 0
  {
  }

  /** The repairs after a removal, and the collapse of an empty root. */
  method FinishDelete(store: PageStore, nodes: seq<Node>, positions: seq<nat>, ghost t: Tree, ghost h: nat)
    returns (rootId: PageId, ghost t': Tree, ghost h': nat)
    requires store.Valid() && 0 < |nodes| && Cursor(store, t, nodes, positions)
    requires var path := positions[..|nodes| - 1];
      Holds(store.Views(), t, h) && Ordered(Items(t)) && if path == [] then Ok(t, h, 0) else OkBut(t, h, 1, path)
    modifies store, nodes, set n | n in nodes :: n.keys, set n | n in nodes :: n.slots
    ensures store.Valid() && rootId == t'.id
    ensures Holds(store.Views(), t', h') && Ok(t', h', if h' > 0 then 1 else 0) && Ordered(Items(t'))
    ensures Entries(Items(t')) == Entries(Items(t))
    ensures forall x :: x in store.freed <==> x in old(store.freed) || (x in Pages(t) && x !in Pages(t'))
  {
    hide Holds, Ok, OkBut, Items, Ordered, Entries, Pages, Cursor, CursorAt, Separate, Repaired, Node.Valid, Node.Shown, PageStore.Valid, PageStore.Views;
    var depth := |nodes| - 1;
    ghost var s, f, ids, t1 := store.Views(), store.freed, Ids(nodes), t;
    CursorSet(store, t, h, nodes, positions);
    ShownFields(nodes[depth]);
    RepairedNothing(s, t, h, f);
    if depth > 0 && nodes[depth].keyCount < MIN_KEYS {
      t1 := HandleUnderflow(store, nodes, positions, depth, ids, t, h);
    } else if depth > 0 {
      SettingHere(s, t, h, ids, positions, depth);
      OkWeaker(t, h, 1, 0);
    }
    RepairedParts(s, store.Views(), t, t1, h, f, store.freed);
    rootId, t', h' := CollapseRoot(store, nodes[0], t1, h);
  }

  /** What the repairs need of the cursor. */
  lemma CursorSet(store: PageStore, t: Tree, h: nat, nodes: seq<Node>, positions: seq<nat>)
    requires store.Valid() && 0 < |nodes| && Cursor(store, t, nodes, positions)
    requires var path := positions[..|nodes| - 1];
      Holds(store.Views(), t, h) && if path == [] then Ok(t, h, 0) else OkBut(t, h, 1, path)
    ensures |nodes| == |positions| && Separate(nodes) && nodes[0].id == t.id && nodes[|nodes| - 1].Valid()
    ensures CursorAt(store.Views(), t, h, Ids(nodes), positions, |nodes| - 1)
    ensures Loaded(store, nodes, Ids(nodes), |nodes| - 1) && Loaded(store, nodes, Ids(nodes), 0)
  {
    hide Holds, Ok, OkBut, Node.Valid, Node.Shown, PageStore.Valid, PageStore.Views;
    assert positions[..0] == [];
  }

  lemma RepairedParts(s: map<PageId, View>, s': map<PageId, View>, t: Tree, t': Tree, h: nat, f: set<PageId>, f': set<PageId>)
    requires Repaired(s, s', t, t', h, f, f')
    ensures Holds(s', t', h) && t'.id == t.id && Entries(Items(t')) == Entries(Items(t)) && (Ordered(Items(t)) ==> Ordered(Items(t')))
    ensures Pages(t') <= Pages(t) && forall x :: x in f' <==> x in f || (x in Pages(t) && x !in Pages(t'))
  {
    hide Holds, Items, Entries, Ordered, Pages;
  }

  // ------------------------------------------------------------ witnesses

  /** Two leaves, the separator being the first key of the right one. */
  const LEFT_LEAF := Leaf(2, [1, 2], [10, 20])
  const RIGHT_LEAF := Leaf(3, [3, 4], [30, 40])
  const TWO_LEAVES := Inner(1, [3], [LEFT_LEAF, RIGHT_LEAF])

  ghost predicate TwoLeafPages(s: map<PageId, View>) {
    && 1 in s && s[1] == View(1, [3], [2, 3], 0, 0)
    && 2 in s && s[2] == View(0, [1, 2], [10, 20], 3, 0)
    && 3 in s && s[3] == View(0, [3, 4], [30, 40], 0, 2)
  }

  lemma TwoLeaves(s: map<PageId, View>)
    requires TwoLeafPages(s)
    ensures Holds(s, TWO_LEAVES, 1) && Ok(TWO_LEAVES, 1, 0) && Ordered(Items(TWO_LEAVES))
    ensures Sep(3) in Items(TWO_LEAVES) && Occurs(Items(TWO_LEAVES), 3)
  {
    hide Items, Pages, Stored, Marks, Occurs, Ok;
    TwoLeavesRead();
    TwoLeavesMarks();
    TwoLeavesStored(s);
    hide TWO_LEAVES;
    var xs := Items(TWO_LEAVES);
    assert xs[3] == Sep(3);
    SepMeans(xs, 3);
    assert Chain(s, [2, 3]);
  }

  lemma TwoLeavesParts()
    ensures Items(LEFT_LEAF) == [Mark(2), Entry(1, 10), Entry(2, 20)] && Items(RIGHT_LEAF) == [Mark(3), Entry(3, 30), Entry(4, 40)]
    ensures Items(TWO_LEAVES) == Items(LEFT_LEAF) + ([Sep(3)] + Items(RIGHT_LEAF))
  {
    assert LeafItems([1, 2], [10, 20]) == [Entry(1, 10), Entry(2, 20)];
    assert LeafItems([3, 4], [30, 40]) == [Entry(3, 30), Entry(4, 40)];
    assert TWO_LEAVES.kids[1..] == [RIGHT_LEAF] && Tail([3], [RIGHT_LEAF]) == [Sep(3)] + Items(RIGHT_LEAF) + Tail([], []);
    assert Items(TWO_LEAVES) == Items(LEFT_LEAF) + Tail([3], [RIGHT_LEAF]);
  }

  lemma TwoLeavesRead()
    ensures Items(TWO_LEAVES) == [Mark(2), Entry(1, 10), Entry(2, 20), Sep(3), Mark(3), Entry(3, 30), Entry(4, 40)]
  {
    hide Items;
    TwoLeavesParts();
  }

  lemma TwoLeavesMarks()
    ensures Marks(Items(TWO_LEAVES)) == [2, 3] && Pages(TWO_LEAVES) == multiset{1, 2, 3}
  {
    TwoLeavesParts();
    var l, r := Items(LEFT_LEAF), Items(RIGHT_LEAF);
    LeafMarks(LEFT_LEAF);
    LeafMarks(RIGHT_LEAF);
    MarksConcat(l, [Sep(3)] + r);
    MarksConcat([Sep(3)], r);
    assert Marks([Sep(3)]) == [];
    PagesOf(LEFT_LEAF);
    PagesOf(RIGHT_LEAF);
    FirstPages([RIGHT_LEAF]);
    FirstPages([LEFT_LEAF, RIGHT_LEAF]);
    assert [RIGHT_LEAF][1..] == [] && [LEFT_LEAF, RIGHT_LEAF][1..] == [RIGHT_LEAF];
    FirstPages([]);
    PagesOf(TWO_LEAVES);
    hide Items, Marks, Pages, ForestPages;
  }

  lemma TwoLeavesStored(s: map<PageId, View>)
    requires TwoLeafPages(s)
    ensures Stored(s, TWO_LEAVES, 1) && Ok(TWO_LEAVES, 1, 0)
  {
    assert RootIds([LEFT_LEAF, RIGHT_LEAF]) == [2, 3];
    assert Stored(s, LEFT_LEAF, 0) && Stored(s, RIGHT_LEAF, 0);
  }

  method TwoLeafStore() returns (store: PageStore)
    ensures fresh(store) && store.Valid() && TwoLeafPages(store.Views())
  {
    store := new PageStore(map[
      1 := PageData(1, 1, [3, 0, 0, 0], [2, 3, 0, 0, 0], 0, 0),
      2 := PageData(0, 2, [1, 2, 0, 0], [10, 20, 0, 0, 0], 3, 0),
      3 := PageData(0, 2, [3, 4, 0, 0], [30, 40, 0, 0, 0], 0, 2)]);
  }

  /** Deleting key 3, which the separator has, loses key 4 as well. */
  method LostSubtree() returns (store: PageStore, ghost t: Tree)
    ensures store.Valid() && Stored(store.Views(), t, 1)
    ensures |Entries(Items(t))| <= |Entries(Items(TWO_LEAVES))| - 2
  {
    hide Holds, Ok, Items, Ordered, Occurs, Entries, Cursor, IsPath, Stored, Cut, CutView, At, Replace, Node.Valid, Node.Shown,
      PageStore.Valid, PageStore.Views, ChangedOnly, SizedView;
    store := TwoLeafStore();
    TwoLeaves(store.Views());
    hide TwoLeafPages;
    var ret, nodes, positions;
    ret, nodes, positions, t := RemoveKey(store, 1, 3, TWO_LEAVES, 1);
  }

  /** A leaf with the keys 1 and 2. */
  const TWO_KEYS := Leaf(1, [1, 2], [10, 20])

  lemma TwoKeys(s: map<PageId, View>)
    requires 1 in s && s[1] == View(0, [1, 2], [10, 20], 0, 0)
    ensures Holds(s, TWO_KEYS, 0) && Ok(TWO_KEYS, 0, 0) && Ordered(Items(TWO_KEYS))
    ensures Items(TWO_KEYS) == [Mark(1), Entry(1, 10), Entry(2, 20)] && Occurs(Items(TWO_KEYS), 1)
  {
    assert LeafItems([1, 2], [10, 20]) == [Entry(1, 10), Entry(2, 20)];
    assert Items(TWO_KEYS) == [Mark(1), Entry(1, 10), Entry(2, 20)];
    assert HasKey(Items(TWO_KEYS)[1], 1);
    LeafMarks(TWO_KEYS);
    PagesOf(TWO_KEYS);
  }

  /** Key 1 is deleted, and key 2 is left with its slot. */
  method WrongSlot() returns (store: PageStore, ghost t: Tree, ghost h: nat)
    ensures store.Valid() && Holds(store.Views(), t, h) && Entries(Items(t)) == [(2, 10)]
  {
    hide Holds, Ok, Items, Ordered, Occurs, Entries, Pages, PageStore.Valid, PageStore.Views;
    store := TwoKeyStore();
    TwoKeys(store.Views());
    hide TWO_KEYS;
    var ret, rootId;
    ghost var path, pos;
    ret, rootId, path, pos, t, h := Delete(store, 1, 1, TWO_KEYS, 0);
    CutTwo(path, pos);
  }

  method TwoKeyStore() returns (store: PageStore)
    ensures fresh(store) && store.Valid() && 1 in store.pages && store.Views()[1] == View(0, [1, 2], [10, 20], 0, 0)
  {
    store := new PageStore(map[1 := PageData(0, 2, [1, 2, 0, 0], [10, 20, 0, 0, 0], 0, 0)]);
  }

  lemma CutTwo(path: seq<nat>, pos: nat)
    requires IsPath(TWO_KEYS, path) && pos < |At(TWO_KEYS, path).keys| && At(TWO_KEYS, path).keys[pos] == 1
    ensures path == [] && pos == 0 && Sized(TWO_KEYS) && Entries(Items(Cut(TWO_KEYS, 0))) == [(2, 10)]
  {
    LeafEntries(Cut(TWO_KEYS, 0));
    assert Cut(TWO_KEYS, 0) == Leaf(1, [2], [10]);
    assert Zip([2], [10]) == [(2, 10)];
  }
}
