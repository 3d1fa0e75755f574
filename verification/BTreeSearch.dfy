/** The descent of the cursor to a key: at which node it stops, and what its answer says
    about the whole tree. */
module BTreeSearch {
  import opened Basics
  import opened BTreeModel
  import opened BTreePages
  import opened BTreeNode
  import opened BTreeUnderflow
  import opened BTreeCursor

  const MAX_DEPTH: nat := 16

  // ------------------------------------------------- where a key can occur

  /** The item has this key, as a leaf entry or as a separator. */
  predicate HasKey(x: Item, key: Key) { (x.Entry? && x.key == key) || (x.Sep? && x.sep == key) }

  /** The search finds the key in a node with these keys. */
  predicate FoundAt(keys: seq<Key>, key: Key) { var pos := LowerBound(keys, key); pos < |keys| && keys[pos] == key }

  /** The key occurs in both or in none, and so does the separator with it. */
  ghost predicate SameFor(xs: seq<Item>, ys: seq<Item>, key: Key) {
    (Occurs(xs, key) <==> Occurs(ys, key)) && (Sep(key) in xs <==> Sep(key) in ys)
  }

  ghost predicate Occurs(xs: seq<Item>, key: Key) { exists i | 0 <= i < |xs| :: HasKey(xs[i], key) }

  lemma OccursConcat(xs: seq<Item>, ys: seq<Item>, key: Key)
    ensures Occurs(xs + ys, key) <==> Occurs(xs, key) || Occurs(ys, key)
  {
    var zs := xs + ys;
    if Occurs(zs, key) {
      var i :| 0 <= i < |zs| && HasKey(zs[i], key);
      assert if i < |xs| then xs[i] == zs[i] else ys[i - |xs|] == zs[i];
    }
    if Occurs(xs, key) {
      var i :| 0 <= i < |xs| && HasKey(xs[i], key);
      assert zs[i] == xs[i];
    }
    if Occurs(ys, key) {
      var i :| 0 <= i < |ys| && HasKey(ys[i], key);
      assert zs[|xs| + i] == ys[i];
    }
  }

  /** Left of a separator there are no larger keys, right of it no smaller ones. */
  lemma SepParts(xs: seq<Item>, sep: Key, ys: seq<Item>, key: Key)
    requires Ordered(xs + ([Sep(sep)] + ys))
    ensures Ordered(xs) && Ordered(ys)
    ensures key > sep ==> !Occurs(xs, key)
    ensures key < sep ==> !Occurs(ys, key)
  {
    OrderedConcat(xs, [Sep(sep)] + ys);
    OrderedConcat([Sep(sep)], ys);
    forall i | 0 <= i < |xs| && key > sep
      ensures !HasKey(xs[i], key)
    {
      assert Before(xs[i], ([Sep(sep)] + ys)[0]);
    }
    forall i | 0 <= i < |ys| && key < sep
      ensures !HasKey(ys[i], key)
    {
      assert Before([Sep(sep)][0], ys[i]);
    }
  }

  lemma SepOccurs(sep: Key, ys: seq<Item>, key: Key)
    ensures Occurs([Sep(sep)] + ys, key) <==> sep == key || Occurs(ys, key)
  {
    OccursConcat([Sep(sep)], ys, key);
    assert HasKey([Sep(sep)][0], key) <==> sep == key;
  }

  lemma SepMeans(xs: seq<Item>, key: Key)
    ensures Sep(key) in xs ==> Occurs(xs, key)
  {
    if Sep(key) in xs {
      var i :| 0 <= i < |xs| && xs[i] == Sep(key);
      assert HasKey(xs[i], key);
    }
  }

  /** A subtree and what follows it: a key that is no separator occurs in all of it exactly
      when it occurs in the subtree that the search position points to. */
  lemma {:induction false} InKid(first: Tree, keys: seq<Key>, rest: seq<Tree>, key: Key)
    requires |keys| == |rest| && Ordered(Items(first) + Tail(keys, rest))
    ensures var pos, all := LowerBound(keys, key), Items(first) + Tail(keys, rest);
      && Ordered(Items(([first] + rest)[pos]))
      && if FoundAt(keys, key) then Occurs(all, key) && Sep(key) in all else SameFor(all, Items(([first] + rest)[pos]), key)
    decreases |keys|
  {
    hide Items, Ordered, Occurs, HasKey, Before;
    if keys == [] {
      assert Items(first) + Tail(keys, rest) == Items(first);
    } else {
      var more := Items(rest[0]) + Tail(keys[1..], rest[1..]);
      assert Tail(keys, rest) == [Sep(keys[0])] + more;
      SepParts(Items(first), keys[0], more, key);
      OccursConcat(Items(first), [Sep(keys[0])] + more, key);
      SepOccurs(keys[0], more, key);
      SepMeans(Items(first), key);
      SepMeans(more, key);
      if key > keys[0] {
        InKid(rest[0], keys[1..], rest[1..], key);
        var pos := LowerBound(keys[1..], key);
        assert ([rest[0]] + rest[1..])[pos] == ([first] + rest)[1 + pos];
      }
    }
  }

  /** One step of the descent. */
  lemma Descend(t: Tree, h: nat, lo: nat, key: Key)
    requires Ok(t, h, lo) && t.Inner? && Ordered(Items(t))
    ensures var pos := LowerBound(t.keys, key);
      && pos < |t.kids| && Ordered(Items(t.kids[pos]))
      && if FoundAt(t.keys, key) then Occurs(Items(t), key) && Sep(key) in Items(t) else SameFor(Items(t), Items(t.kids[pos]), key)
  {
    hide Ordered, Occurs, FoundAt;
    InKid(t.kids[0], t.keys, t.kids[1..], key);
    assert [t.kids[0]] + t.kids[1..] == t.kids;
  }

  /** The items of a leaf with these entries. */
  ghost predicate ReadsAs(xs: seq<Item>, keys: seq<Key>, vals: seq<PageId>) {
    |keys| == |vals| && |xs| == 1 + |keys| && xs[0].Mark? && forall i | 0 < i < |xs| :: xs[i] == Entry(keys[i - 1], vals[i - 1])
  }

  lemma LeafReads(t: Tree)
    requires t.Leaf? && |t.keys| == |t.vals|
    ensures ReadsAs(Items(t), t.keys, t.vals)
  {
    var ys := LeafItems(t.keys, t.vals);
    assert Items(t) == [Mark(t.id)] + ys;
    hide Items, LeafItems;
  }

  lemma AmongEntries(xs: seq<Item>, keys: seq<Key>, vals: seq<PageId>, key: Key)
    requires ReadsAs(xs, keys, vals) && Ordered(xs)
    ensures var pos := LowerBound(keys, key); Occurs(xs, key) <==> pos < |keys| && keys[pos] == key
  {
    var pos := LowerBound(keys, key);
    hide LowerBound;
    if pos < |keys| && keys[pos] == key {
      assert HasKey(xs[pos + 1], key);
    } else {
      forall i | 0 <= i < |xs|
        ensures !HasKey(xs[i], key)
      {
        assert pos + 1 < i ==> Before(xs[pos + 1], xs[i]);
      }
    }
  }

  /** At the bottom the search position decides. */
  lemma AtLeaf(t: Tree, h: nat, lo: nat, key: Key)
    requires Ok(t, h, lo) && t.Leaf? && Ordered(Items(t))
    ensures (Occurs(Items(t), key) <==> FoundAt(t.keys, key)) && Sep(key) !in Items(t)
  {
    hide Items, Occurs, Ordered;
    LeafReads(t);
    AmongEntries(Items(t), t.keys, t.vals, key);
  }

  // -------------------------------------------------------------- the path

  lemma {:induction false} PathStep(t: Tree, path: seq<nat>, i: nat)
    requires IsPath(t, path) && At(t, path).Inner? && i < |At(t, path).kids|
    ensures IsPath(t, path + [i]) && At(t, path + [i]) == At(t, path).kids[i]
    decreases t
  {
    if path != [] {
      PathStep(t.kids[path[0]], path[1..], i);
      assert (path + [i])[1..] == path[1..] + [i];
    } else {
      assert (path + [i])[1..] == [];
    }
  }

  lemma {:induction false} OkAt(t: Tree, h: nat, lo: nat, path: seq<nat>)
    requires Ok(t, h, lo) && IsPath(t, path)
    ensures |path| <= h && Ok(At(t, path), h - |path|, if path == [] then lo else MIN_KEYS)
    decreases t
  {
    if path != [] {
      OkAt(t.kids[path[0]], h - 1, MIN_KEYS, path[1..]);
    }
  }

  // ------------------------------------------------------------- the search

  ghost function Ids(nodes: seq<Node>): (r: seq<PageId>)
    ensures |r| == |nodes|
  {
    seq(|nodes|, i requires 0 <= i < |nodes| => nodes[i].id)
  }

  /** What is known of the node on the way down: it is where the path leads, and the key
      occurs below it if it occurs at all. */
  ghost predicate OnTheWay(s: map<PageId, View>, t: Tree, h: nat, path: seq<nat>, key: Key, current: PageId) {
    && IsPath(t, path) && |path| <= h && current == At(t, path).id
    && Stored(s, At(t, path), h - |path|) && Ok(At(t, path), h - |path|, 0)
    && (Ordered(Items(t)) ==> Ordered(Items(At(t, path))) && SameFor(Items(t), Items(At(t, path)), key))
  }

  lemma StartWay(s: map<PageId, View>, t: Tree, h: nat, key: Key)
    requires Stored(s, t, h) && Ok(t, h, 0)
    ensures OnTheWay(s, t, h, [], key, t.id)
  {
  }

  /** The answer at a node: found, at a leaf not found, or the next node. */
  lemma NextOnWay(s: map<PageId, View>, t: Tree, h: nat, path: seq<nat>, key: Key, current: PageId)
    requires OnTheWay(s, t, h, path, key, current)
    ensures current in s
    ensures var u, v := At(t, path), s[current]; var pos, found := LowerBound(v.keys, key), FoundAt(v.keys, key);
      && v.keys == u.keys && (v.level == 0 <==> u.Leaf?)
      && (found && Ordered(Items(t)) ==> Occurs(Items(t), key) && (u.Inner? <==> Sep(key) in Items(t)))
      && (!found && u.Leaf? && Ordered(Items(t)) ==> !Occurs(Items(t), key))
      && (!found && u.Inner? ==> pos < |v.slots| && |path| < h && OnTheWay(s, t, h, path + [pos], key, v.slots[pos]))
  {
    hide Items, Ordered, Occurs, Stored, Ok, IsPath, LowerBound;
    NodeFacts(s, At(t, path), h - |path|);
    Answers(t, At(t, path), h - |path|, key);
    hide OnTheWay;
    if At(t, path).Inner? && !FoundAt(At(t, path).keys, key) {
      StepDown(s, t, h, path, key, current);
    }
  }

  lemma Answers(t: Tree, u: Tree, h: nat, key: Key)
    requires Ok(u, h, 0)
    requires Ordered(Items(t)) ==> Ordered(Items(u)) && SameFor(Items(t), Items(u), key)
    ensures FoundAt(u.keys, key) && Ordered(Items(t)) ==> Occurs(Items(t), key) && (u.Inner? <==> Sep(key) in Items(t))
    ensures !FoundAt(u.keys, key) && u.Leaf? && Ordered(Items(t)) ==> !Occurs(Items(t), key)
  {
    hide Items, Ordered, Occurs, Ok, LowerBound;
    if Ordered(Items(t)) {
      if u.Leaf? { AtLeaf(u, h, 0, key); } else { Descend(u, h, 0, key); }
    }
  }

  lemma StepDown(s: map<PageId, View>, t: Tree, h: nat, path: seq<nat>, key: Key, current: PageId)
    requires OnTheWay(s, t, h, path, key, current) && At(t, path).Inner? && !FoundAt(At(t, path).keys, key)
    ensures var u := At(t, path); var pos := LowerBound(u.keys, key);
      |path| < h && pos < |u.kids| && OnTheWay(s, t, h, path + [pos], key, u.kids[pos].id)
  {
    hide Items, Ordered, Occurs, Stored, Ok, IsPath;
    var u, hu := At(t, path), h - |path|;
    var pos := LowerBound(u.keys, key);
    hide LowerBound;
    NodeFacts(s, u, hu);
    if Ordered(Items(t)) {
      Descend(u, hu, 0, key);
    }
    PathStep(t, path, pos);
    StoredKid(s, u, hu, pos);
    OkWeaker(u.kids[pos], hu - 1, MIN_KEYS, 0);
  }

  lemma NodeFacts(s: map<PageId, View>, u: Tree, h: nat)
    requires Stored(s, u, h) && Ok(u, h, 0)
    ensures u.id in s && s[u.id].keys == u.keys && (s[u.id].level == 0 <==> u.Leaf?) && (u.Leaf? <==> h == 0)
    ensures u.Inner? ==>
      && |u.kids| == |u.keys| + 1 == |s[u.id].slots| && (forall i | 0 <= i < |u.kids| :: s[u.id].slots[i] == u.kids[i].id)
      && (forall i | 0 <= i < |u.kids| :: Ok(u.kids[i], h - 1, MIN_KEYS))
  {
  }

  /** The cursor after a search: the nodes loaded along the path. */
  ghost predicate Cursor(store: PageStore, t: Tree, nodes: seq<Node>, positions: seq<nat>)
    requires store.Valid()
    reads store, nodes, set n | n in nodes :: n.keys, set n | n in nodes :: n.slots
  {
    && |nodes| == |positions| && Separate(nodes)
    && forall j | 0 <= j < |nodes| ::
         && IsPath(t, positions[..j]) && nodes[j].id == At(t, positions[..j]).id
         && nodes[j].Valid() && nodes[j].id in store.pages && nodes[j].Shown() == store.Views()[nodes[j].id]
  }

  /** Loads a node and looks for the key in it. */
  method Visit(store: PageStore, id: PageId, key: Key) returns (node: Node, pos: nat, found: bool)
    requires store.Valid() && id in store.pages
    ensures node.Valid() && fresh(node.Footprint()) && node.id == id && node.Shown() == store.Views()[id]
    ensures pos == LowerBound(node.Shown().keys, key) && found == FoundAt(node.Shown().keys, key)
  {
    hide PageStore.Valid, PageStore.Views, LowerBound;
    node := store.Load(id);
    pos := SearchPosition(node, key);
    found := pos < node.keyCount && node.keys[pos] == key;
  }

  /** Descends from the root, at each node to the first key not below the searched one. In an
      ordered tree it answers that the key is there exactly when a leaf entry or a separator
      has it, and it stops at an inner node exactly when a separator has it. */
  method Search(store: PageStore, root: PageId, key: Key, ghost t: Tree, ghost h: nat)
    returns (ret: int, nodes: seq<Node>, positions: seq<nat>)
    requires store.Valid() && Holds(store.Views(), t, h) && Ok(t, h, 0) && root == t.id
    ensures 0 < |nodes| && Cursor(store, t, nodes, positions) && forall n | n in nodes :: fresh(n.Footprint())
    ensures var u, pos := At(t, positions[..|nodes| - 1]), positions[|nodes| - 1];
      && (ret == EEXIST ==> FoundAt(u.keys, key) && pos == LowerBound(u.keys, key))
      && (ret == 0 ==> u.Leaf? && pos == LowerBound(u.keys, key))
      && (ret != EEXIST && ret != 0 ==> ret == E2BIG && |nodes| == MAX_DEPTH <= h)
    ensures Ordered(Items(t)) && ret == EEXIST ==>
      Occurs(Items(t), key) && (At(t, positions[..|nodes| - 1]).Inner? <==> Sep(key) in Items(t))
    ensures Ordered(Items(t)) && ret == 0 ==> !Occurs(Items(t), key)
  {
    hide Holds, Ok, Items, Ordered, Occurs, OnTheWay, Node.Shown, Node.Valid, IsPath, Cursor, PageStore.Valid, PageStore.Views, LowerBound;
    ghost var s := store.Views();
    HoldsStored(s, t, h);
    StartWay(s, t, h, key);
    var current := root;
    nodes, positions := [], [];
    CursorEmpty(store, t);
    while |nodes| < MAX_DEPTH
      invariant |nodes| == |positions| <= MAX_DEPTH && Cursor(store, t, nodes, positions) && forall n | n in nodes :: fresh(n.Footprint())
      invariant OnTheWay(s, t, h, positions, key, current)
      decreases MAX_DEPTH - |nodes|
    {
      NextOnWay(s, t, h, positions, key, current);
      var node, pos, found := Visit(store, current, key);
      WayPath(s, t, h, positions, key, current);
      CursorPush(store, t, nodes, positions, node, pos);
      nodes, positions := nodes + [node], positions + [pos];
      assert positions[..|nodes| - 1] + [pos] == positions;
      if found {
        return EEXIST, nodes, positions;
      }
      ShownFields(node);
      if node.level == 0 {
        return 0, nodes, positions;
      }
      current := node.slots[pos];
    }
    WayPath(s, t, h, positions, key, current);
    ret := E2BIG;
  }

  lemma HoldsStored(s: map<PageId, View>, t: Tree, h: nat)
    requires Holds(s, t, h)
    ensures Stored(s, t, h)
  {
  }

  lemma WayPath(s: map<PageId, View>, t: Tree, h: nat, path: seq<nat>, key: Key, current: PageId)
    requires OnTheWay(s, t, h, path, key, current)
    ensures |path| <= h && IsPath(t, path) && current == At(t, path).id
  {
  }

  lemma CursorEmpty(store: PageStore, t: Tree)
    requires store.Valid()
    ensures Cursor(store, t, [], [])
  {
  }

  lemma CursorPush(store: PageStore, t: Tree, nodes: seq<Node>, positions: seq<nat>, node: Node, pos: nat)
    requires store.Valid() && Cursor(store, t, nodes, positions) && forall n | n in nodes :: Apart(n, node)
    requires IsPath(t, positions) && node.id == At(t, positions).id
    requires node.Valid() && node.id in store.pages && node.Shown() == store.Views()[node.id]
    ensures Cursor(store, t, nodes + [node], positions + [pos])
  {
    hide IsPath, PageStore.Valid, PageStore.Views, Node.Valid, Node.Shown;
    var more, ps := nodes + [node], positions + [pos];
    forall j | 0 <= j < |more|
      ensures ps[..j] == positions[..j] && if j < |nodes| then more[j] == nodes[j] else more[j] == node && positions[..j] == positions
    {
    }
  }
}
