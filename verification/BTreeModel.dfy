/** The meaning of a B-tree index: what the pages stand for, independently of
    how they are laid out or repaired.

    A tree is read left to right as one sequence of items: leaf entries, the
    separators between subtrees, and a mark at the start of every leaf page.
    Contents, key order and leaf order are all properties of that sequence. */
module BTreeModel {
  import opened Basics

  const MAX_KEYS: nat := 4
  const MIN_KEYS: nat := MAX_KEYS / 2

  type Key = nat
  type PageId = nat

  datatype Tree =
    | Leaf(id: PageId, keys: seq<Key>, vals: seq<PageId>)
    | Inner(id: PageId, keys: seq<Key>, kids: seq<Tree>)

  datatype Item = Mark(leaf: PageId) | Entry(key: Key, val: PageId) | Sep(sep: Key)

  // ---------------------------------------------------------------- shape

  /** Height `h` everywhere, between `lo` and MAX_KEYS keys at the root, and
      between MIN_KEYS and MAX_KEYS keys in every node below it. */
  ghost predicate Ok(t: Tree, h: nat, lo: nat)
    decreases t
  {
    && lo <= |t.keys| <= MAX_KEYS
    && match t
       case Leaf(_, keys, vals) => h == 0 && |vals| == |keys|
       case Inner(_, keys, kids) =>
         && h > 0
         && |kids| == |keys| + 1
         && forall i | 0 <= i < |kids| :: Ok(kids[i], h - 1, MIN_KEYS)
  }

  /** Like `Ok`, except that the node reached by `path` may be short: it has at
      least one key. `lo` is the least number of keys of a longer path's root. */
  ghost predicate OkBut(t: Tree, h: nat, lo: nat, path: seq<nat>)
    decreases t
  {
    if path == [] then Ok(t, h, 1)
    else
      && t.Inner?
      && h > 0
      && lo <= |t.keys| <= MAX_KEYS
      && |t.kids| == |t.keys| + 1
      && path[0] < |t.kids|
      && OkBut(t.kids[path[0]], h - 1, MIN_KEYS, path[1..])
      && forall i | 0 <= i < |t.kids| && i != path[0] :: Ok(t.kids[i], h - 1, MIN_KEYS)
  }

  ghost predicate IsPath(t: Tree, path: seq<nat>)
    decreases t
  {
    path == [] || (t.Inner? && path[0] < |t.kids| && IsPath(t.kids[path[0]], path[1..]))
  }

  ghost function At(t: Tree, path: seq<nat>): Tree
    requires IsPath(t, path)
    decreases t
  {
    if path == [] then t else At(t.kids[path[0]], path[1..])
  }

  ghost function Replace(t: Tree, path: seq<nat>, u: Tree): Tree
    requires IsPath(t, path)
    decreases t
  {
    if path == [] then u
    else t.(kids := t.kids[path[0] := Replace(t.kids[path[0]], path[1..], u)])
  }

  // ------------------------------------------------------------- page ids

  /** Every page of the tree, counted as often as it is used. */
  ghost function Pages(t: Tree): multiset<PageId>
    decreases t, 1
  {
    multiset{t.id} + if t.Leaf? then multiset{} else ForestPages(t.kids)
  }

  ghost function ForestPages(kids: seq<Tree>): multiset<PageId>
    decreases kids, 0
  {
    if kids == [] then multiset{} else Pages(kids[0]) + ForestPages(kids[1..])
  }

  /** No page is used twice. */
  ghost predicate Distinct(pages: multiset<PageId>) {
    forall x | x in pages :: pages[x] == 1
  }

  ghost function RootIds(kids: seq<Tree>): (r: seq<PageId>)
    ensures |r| == |kids|
    ensures forall i | 0 <= i < |kids| :: r[i] == kids[i].id
  {
    seq(|kids|, i requires 0 <= i < |kids| => kids[i].id)
  }

  // ------------------------------------------------------- reading a tree

  ghost function LeafItems(keys: seq<Key>, vals: seq<PageId>): (r: seq<Item>)
    requires |keys| == |vals|
    ensures |r| == |keys|
    ensures forall i | 0 <= i < |r| :: r[i] == Entry(keys[i], vals[i])
  {
    seq(|keys|, i requires 0 <= i < |keys| => Entry(keys[i], vals[i]))
  }

  /** Separator, subtree, separator, subtree, ... */
  ghost function Tail(keys: seq<Key>, kids: seq<Tree>): seq<Item>
    decreases kids, 0
  {
    if keys == [] || kids == [] then []
    else [Sep(keys[0])] + Items(kids[0]) + Tail(keys[1..], kids[1..])
  }

  ghost function Items(t: Tree): seq<Item>
    decreases t, 1
  {
    match t
    case Leaf(id, keys, vals) => [Mark(id)] + if |keys| == |vals| then LeafItems(keys, vals) else []
    case Inner(_, keys, kids) => if kids == [] then [] else Items(kids[0]) + Tail(keys, kids[1..])
  }

  /** The stored (key, slot) pairs of the leaves, left to right. */
  ghost function Entries(xs: seq<Item>): seq<(Key, PageId)>
  {
    if xs == [] then []
    else (if xs[0].Entry? then [(xs[0].key, xs[0].val)] else []) + Entries(xs[1..])
  }

  /** The leaf pages, left to right. */
  ghost function Marks(xs: seq<Item>): seq<PageId>
  {
    if xs == [] then []
    else (if xs[0].Mark? then [xs[0].leaf] else []) + Marks(xs[1..])
  }

  /** A separator is above every key to its left and at most every key to its
      right; leaf keys strictly increase. */
  predicate Before(x: Item, y: Item)
  {
    match (x, y)
    case (Entry(k, _), Entry(l, _)) => k < l
    case (Entry(k, _), Sep(s)) => k < s
    case (Sep(s), Entry(k, _)) => s <= k
    case (Sep(s), Sep(r)) => s <= r
    case _ => true
  }

  ghost predicate Ordered(xs: seq<Item>)
  {
    forall i, j | 0 <= i < j < |xs| :: Before(xs[i], xs[j])
  }

  // ------------------------------------------- lemmas: sequences of items

  lemma Assoc<T>(a: seq<T>, b: seq<T>, c: seq<T>)
    ensures (a + b) + c == a + (b + c)
  {
  }

  lemma {:induction false} EntriesConcat(xs: seq<Item>, ys: seq<Item>)
    ensures Entries(xs + ys) == Entries(xs) + Entries(ys)
    decreases |xs|
  {
    if xs == [] {
      assert xs + ys == ys;
    } else {
      assert (xs + ys)[1..] == xs[1..] + ys;
      EntriesConcat(xs[1..], ys);
      Assoc(if xs[0].Entry? then [(xs[0].key, xs[0].val)] else [], Entries(xs[1..]), Entries(ys));
    }
  }

  lemma {:induction false} MarksConcat(xs: seq<Item>, ys: seq<Item>)
    ensures Marks(xs + ys) == Marks(xs) + Marks(ys)
    decreases |xs|
  {
    if xs == [] {
      assert xs + ys == ys;
    } else {
      assert (xs + ys)[1..] == xs[1..] + ys;
      MarksConcat(xs[1..], ys);
      Assoc(if xs[0].Mark? then [xs[0].leaf] else [], Marks(xs[1..]), Marks(ys));
    }
  }

  ghost predicate Cross(xs: seq<Item>, ys: seq<Item>)
  {
    forall i, j | 0 <= i < |xs| && 0 <= j < |ys| :: Before(xs[i], ys[j])
  }

  lemma OrderedConcat(xs: seq<Item>, ys: seq<Item>)
    ensures Ordered(xs + ys) <==> Ordered(xs) && Ordered(ys) && Cross(xs, ys)
  {
    var zs := xs + ys;
    if Ordered(zs) {
      forall i, j | 0 <= i < j < |ys| ensures Before(ys[i], ys[j]) {
        assert Before(zs[|xs| + i], zs[|xs| + j]);
      }
      forall i, j | 0 <= i < |xs| && 0 <= j < |ys| ensures Before(xs[i], ys[j]) {
        assert Before(zs[i], zs[|xs| + j]);
      }
      forall i, j | 0 <= i < j < |xs| ensures Before(xs[i], xs[j]) {
        assert Before(zs[i], zs[j]);
      }
    }
  }

  /** Every item of `ys` is an item of `xs`, or a separator equal to the key of
      an entry of `xs`: such a list fits wherever `xs` fits. */
  ghost predicate Within(ys: seq<Item>, xs: seq<Item>)
  {
    forall j | 0 <= j < |ys| ::
      ys[j] in xs || (ys[j].Sep? && exists e | e in xs :: e.Entry? && e.key == ys[j].sep)
  }

  /** Replacing a stretch of an ordered sequence keeps it ordered. */
  lemma OrderedSwap(a: seq<Item>, xs: seq<Item>, ys: seq<Item>, b: seq<Item>)
    requires Ordered(a + xs + b) && Ordered(ys) && Within(ys, xs)
    ensures Ordered(a + ys + b)
  {
    OrderedConcat(a + xs, b);
    OrderedConcat(a, xs);
    OrderedConcat(a, ys);
    OrderedConcat(a + ys, b);
    forall i, j | 0 <= i < |a| && 0 <= j < |ys| ensures Before(a[i], ys[j]) {
      var e :| e in xs && (e == ys[j] || (e.Entry? && ys[j].Sep? && e.key == ys[j].sep));
    }
    forall i, j | 0 <= i < |a + ys| && 0 <= j < |b| ensures Before((a + ys)[i], b[j]) {
      if i < |a| {
        assert Before((a + xs)[i], b[j]);
      } else {
        var y := ys[i - |a|];
        var e :| e in xs && (e == y || (e.Entry? && y.Sep? && e.key == y.sep));
        var k :| 0 <= k < |xs| && xs[k] == e;
        assert (a + xs)[|a| + k] == e;
      }
    }
  }

  // --------------------------------------------- lemmas: reading a forest

  lemma {:induction false} TailSplit(k1: seq<Key>, c1: seq<Tree>, k2: seq<Key>, c2: seq<Tree>)
    requires |k1| == |c1|
    ensures Tail(k1 + k2, c1 + c2) == Tail(k1, c1) + Tail(k2, c2)
    decreases |k1|
  {
    if k1 == [] {
      assert k1 + k2 == k2 && c1 + c2 == c2;
    } else {
      assert (k1 + k2)[1..] == k1[1..] + k2 && (c1 + c2)[1..] == c1[1..] + c2;
      TailSplit(k1[1..], c1[1..], k2, c2);
    }
  }

  /** Everything to the left of kid `s`, its leading separator included. */
  ghost function Left(keys: seq<Key>, kids: seq<Tree>, s: nat): seq<Item>
    requires |kids| == |keys| + 1 && s < |kids|
  {
    if s == 0 then [] else Items(kids[0]) + Tail(keys[..s - 1], kids[1..s]) + [Sep(keys[s - 1])]
  }

  lemma TailAt(keys: seq<Key>, kids: seq<Tree>, s: nat)
    requires |kids| == |keys| && 0 < s <= |kids|
    ensures Tail(keys, kids) ==
            Tail(keys[..s - 1], kids[..s - 1]) + ([Sep(keys[s - 1])] + Items(kids[s - 1]) + Tail(keys[s..], kids[s..]))
  {
    assert keys == keys[..s - 1] + keys[s - 1..] && kids == kids[..s - 1] + kids[s - 1..];
    TailSplit(keys[..s - 1], kids[..s - 1], keys[s - 1..], kids[s - 1..]);
    assert keys[s - 1..][1..] == keys[s..] && kids[s - 1..][1..] == kids[s..];
  }

  lemma ItemsAt(id: PageId, keys: seq<Key>, kids: seq<Tree>, s: nat)
    requires |kids| == |keys| + 1 && s < |kids|
    ensures Items(Inner(id, keys, kids)) ==
            Left(keys, kids, s) + Items(kids[s]) + Tail(keys[s..], kids[s + 1..])
  {
    if s == 0 {
      assert keys[0..] == keys;
    } else {
      TailAt(keys, kids[1..], s);
      assert kids[1..][..s - 1] == kids[1..s] && kids[1..][s..] == kids[s + 1..];
      var i, t, x, k, z := Items(kids[0]), Tail(keys[..s - 1], kids[1..s]), [Sep(keys[s - 1])],
        Items(kids[s]), Tail(keys[s..], kids[s + 1..]);
      assert Items(Inner(id, keys, kids)) == i + (t + (x + k + z));
      Regroup5(i, t, x, k, z);
    }
  }

  lemma Regroup5(i: seq<Item>, t: seq<Item>, x: seq<Item>, k: seq<Item>, z: seq<Item>)
    ensures i + (t + (x + k + z)) == (i + t + x) + k + z
  {
  }

  // ---------------------------------------------- lemmas: pages of a forest

  lemma {:induction false} ForestPagesConcat(a: seq<Tree>, b: seq<Tree>)
    ensures ForestPages(a + b) == ForestPages(a) + ForestPages(b)
    decreases |a|
  {
    if a == [] {
      assert a + b == b;
    } else {
      assert (a + b)[1..] == a[1..] + b;
      ForestPagesConcat(a[1..], b);
    }
  }

  lemma ForestPagesAt(kids: seq<Tree>, p: nat)
    requires p < |kids|
    ensures ForestPages(kids) == ForestPages(kids[..p]) + Pages(kids[p]) + ForestPages(kids[p + 1..])
  {
    assert kids == kids[..p] + kids[p..] && kids[p..][1..] == kids[p + 1..];
    ForestPagesConcat(kids[..p], kids[p..]);
  }

  // ----------------------------------------------- lemmas: tree contexts

  /** Dropping the last step of a path leads to the parent. */
  lemma {:induction false} AtParent(t: Tree, path: seq<nat>, i: nat)
    requires IsPath(t, path + [i])
    ensures IsPath(t, path)
    ensures At(t, path).Inner? && i < |At(t, path).kids|
    ensures At(t, path + [i]) == At(t, path).kids[i]
    decreases t
  {
    if path == [] {
      assert (path + [i])[1..] == [];
    } else {
      assert (path + [i])[1..] == path[1..] + [i];
      AtParent(t.kids[path[0]], path[1..], i);
    }
  }

  /** What a short child and its parent look like: all the facts a repair uses. */
  lemma {:induction false} ShortChild(t: Tree, h: nat, lo: nat, path: seq<nat>, i: nat)
    requires OkBut(t, h, lo, path + [i])
    ensures IsPath(t, path)
    ensures var u := At(t, path); var lo' := if path == [] then lo else MIN_KEYS;
      && u.Inner? && |path| < h
      && lo' <= |u.keys| <= MAX_KEYS && |u.kids| == |u.keys| + 1 && i < |u.kids|
      && Ok(u.kids[i], h - |path| - 1, 1)
      && forall j | 0 <= j < |u.kids| && j != i :: Ok(u.kids[j], h - |path| - 1, MIN_KEYS)
    decreases t
  {
    if path == [] {
      assert (path + [i])[1..] == [];
    } else {
      assert (path + [i])[1..] == path[1..] + [i];
      ShortChild(t.kids[path[0]], h - 1, MIN_KEYS, path[1..], i);
    }
  }

  /** Replacing the parent of a short node by a node that lacks nothing, or by
      one that is itself short. */
  lemma {:induction false} OkReplace(t: Tree, h: nat, lo: nat, path: seq<nat>, i: nat, u: Tree)
    requires OkBut(t, h, lo, path + [i]) && IsPath(t, path) && |path| <= h
    ensures path != [] && Ok(u, h - |path|, 1) ==> OkBut(Replace(t, path, u), h, lo, path)
    ensures path != [] && Ok(u, h - |path|, MIN_KEYS) ==> Ok(Replace(t, path, u), h, lo)
    decreases t
  {
    if path != [] {
      assert (path + [i])[1..] == path[1..] + [i];
      var k := t.kids[path[0]];
      OkReplace(k, h - 1, MIN_KEYS, path[1..], i, u);
      if path[1..] == [] {
        assert Replace(k, path[1..], u) == u;
      }
    }
  }

  ghost function ItemsBefore(t: Tree, path: seq<nat>): seq<Item>
    requires IsPath(t, path)
    decreases t
  {
    if path == [] || |t.kids| != |t.keys| + 1 then []
    else Left(t.keys, t.kids, path[0]) + ItemsBefore(t.kids[path[0]], path[1..])
  }

  ghost function ItemsAfter(t: Tree, path: seq<nat>): seq<Item>
    requires IsPath(t, path)
    decreases t
  {
    if path == [] then []
    else ItemsAfter(t.kids[path[0]], path[1..]) + Tail(t.keys[Min(path[0], |t.keys|)..], t.kids[path[0] + 1..])
  }

  lemma ItemsKid(t: Tree, p: nat, r: Tree)
    requires t.Inner? && |t.kids| == |t.keys| + 1 && p < |t.kids|
    ensures Items(t.(kids := t.kids[p := r])) ==
            Left(t.keys, t.kids, p) + Items(r) + Tail(t.keys[p..], t.kids[p + 1..])
  {
    var kids' := t.kids[p := r];
    ItemsAt(t.id, t.keys, kids', p);
    assert kids'[p + 1..] == t.kids[p + 1..];
    if p > 0 {
      assert kids'[1..p] == t.kids[1..p];
    }
  }

  lemma Regroup(l: seq<Item>, b: seq<Item>, x: seq<Item>, a: seq<Item>, z: seq<Item>)
    ensures l + (b + x + a) + z == (l + b) + x + (a + z)
  {
  }

  /** A subtree replaced in place changes the reading only where it stands. */
  lemma {:induction false} ItemsReplace(t: Tree, h: nat, lo: nat, path: seq<nat>, i: nat, u: Tree)
    requires OkBut(t, h, lo, path + [i]) && IsPath(t, path)
    ensures Items(Replace(t, path, u)) == ItemsBefore(t, path) + Items(u) + ItemsAfter(t, path)
    decreases t
  {
    if path != [] {
      assert (path + [i])[1..] == path[1..] + [i];
      var p := path[0];
      ItemsReplace(t.kids[p], h - 1, MIN_KEYS, path[1..], i, u);
      ItemsKid(t, p, Replace(t.kids[p], path[1..], u));
      Regroup(Left(t.keys, t.kids, p), ItemsBefore(t.kids[p], path[1..]), Items(u),
        ItemsAfter(t.kids[p], path[1..]), Tail(t.keys[p..], t.kids[p + 1..]));
    }
  }

  lemma {:induction false} ReplaceSame(t: Tree, path: seq<nat>)
    requires IsPath(t, path)
    ensures Replace(t, path, At(t, path)) == t
    decreases t
  {
    if path != [] {
      ReplaceSame(t.kids[path[0]], path[1..]);
      assert t.kids == t.kids[path[0] := t.kids[path[0]]];
    }
  }

  lemma PagesKid(t: Tree, p: nat, r: Tree)
    requires t.Inner? && p < |t.kids|
    ensures Pages(t) == multiset{t.id} + ForestPages(t.kids[..p]) + Pages(t.kids[p]) + ForestPages(t.kids[p + 1..])
    ensures Pages(t.(kids := t.kids[p := r])) ==
            multiset{t.id} + ForestPages(t.kids[..p]) + Pages(r) + ForestPages(t.kids[p + 1..])
  {
    var kids' := t.kids[p := r];
    ForestPagesAt(t.kids, p);
    ForestPagesAt(kids', p);
    assert kids'[..p] == t.kids[..p] && kids'[p + 1..] == t.kids[p + 1..];
    hide ForestPages;
  }

  lemma {:induction false} PagesReplace(t: Tree, path: seq<nat>, u: Tree)
    requires IsPath(t, path)
    ensures Pages(At(t, path)) <= Pages(t)
    ensures Pages(Replace(t, path, u)) == Pages(t) - Pages(At(t, path)) + Pages(u)
    decreases t
  {
    hide Pages, ForestPages;
    if path != [] {
      var p := path[0];
      PagesReplace(t.kids[p], path[1..], u);
      PagesKid(t, p, Replace(t.kids[p], path[1..], u));
    }
  }
}
