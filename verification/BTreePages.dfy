/** How a tree lies on pages, and when a change of pages is a change of the tree. */
module BTreePages {
  import opened BTreeModel
  import opened BTreeRepair

  /** The used part of a B-tree page. A leaf pairs keys[i] with slots[i]; an inner
      node has one slot more than it has keys. */
  datatype View = View(level: nat, keys: seq<Key>, slots: seq<PageId>, next: PageId, prev: PageId)

  ghost predicate Shows(v: View, t: Tree, h: nat) {
    && v.level == h
    && v.keys == t.keys
    && v.slots == if t.Leaf? then t.vals else RootIds(t.kids)
  }

  ghost predicate Stored(s: map<PageId, View>, t: Tree, h: nat)
    decreases t
  {
    && t.id in s
    && Shows(s[t.id], t, h)
    && (t.Leaf? <==> h == 0)
    && (t.Inner? ==> forall i | 0 <= i < |t.kids| :: Stored(s, t.kids[i], h - 1))
  }

  ghost predicate SameNode(s: map<PageId, View>, s': map<PageId, View>, x: PageId) {
    x in s && x in s' && s'[x].level == s[x].level && s'[x].keys == s[x].keys && s'[x].slots == s[x].slots
  }

  /** The leaf pages `ms` are doubly linked in this order, 0 closing both ends. */
  ghost predicate Chain(s: map<PageId, View>, ms: seq<PageId>) {
    forall i | 0 <= i < |ms| :: Linked(s, ms, i)
  }

  ghost predicate Linked(s: map<PageId, View>, ms: seq<PageId>, i: nat)
    requires i < |ms|
  {
    && ms[i] in s
    && s[ms[i]].next == (if i + 1 < |ms| then ms[i + 1] else 0)
    && s[ms[i]].prev == (if i > 0 then ms[i - 1] else 0)
  }

  // --------------------------------------------------------------- pages

  lemma KidPages(kids: seq<Tree>, j: nat)
    requires j < |kids|
    ensures Pages(kids[j]) <= ForestPages(kids)
  {
    ForestPagesAt(kids, j);
    hide Pages, ForestPages;
  }

  lemma TwoKidsPages(kids: seq<Tree>, i: nat, j: nat)
    requires i < j < |kids|
    ensures Pages(kids[i]) + Pages(kids[j]) <= ForestPages(kids)
  {
    hide Pages, ForestPages;
    ForestPagesAt(kids, i);
    assert kids[i + 1..][j - i - 1] == kids[j];
    KidPages(kids[i + 1..], j - i - 1);
    SumBound(ForestPages(kids[..i]), Pages(kids[i]), ForestPages(kids[i + 1..]), Pages(kids[j]));
  }

  lemma SumBound(a: multiset<PageId>, x: multiset<PageId>, b: multiset<PageId>, y: multiset<PageId>)
    requires y <= b
    ensures x + y <= a + x + b
  {
  }

  lemma {:induction false} PathPages(t: Tree, path: seq<nat>)
    requires IsPath(t, path)
    ensures Pages(At(t, path)) <= Pages(t)
    ensures path != [] && Distinct(Pages(t)) ==> t.id !in Pages(At(t, path))
    decreases t
  {
    PagesReplace(t, path, t);
    if path != [] {
      PagesReplace(t.kids[path[0]], path[1..], t);
      KidPages(t.kids, path[0]);
      PagesOf(t);
      hide Pages, ForestPages;
      assert multiset{t.id} + Pages(At(t, path)) <= Pages(t);
    }
  }

  lemma DistinctPart(a: multiset<PageId>, b: multiset<PageId>)
    requires a <= b && Distinct(b)
    ensures Distinct(a)
  {
    forall x | x in a ensures a[x] == 1 {
      assert x in b;
    }
  }

  lemma StoredNode(s: map<PageId, View>, t: Tree, h: nat)
    requires t.id in s && Shows(s[t.id], t, h) && (t.Leaf? <==> h == 0)
    requires t.Inner? ==> forall i | 0 <= i < |t.kids| :: Stored(s, t.kids[i], h - 1)
    ensures Stored(s, t, h)
  {
  }

  lemma StoredKid(s: map<PageId, View>, t: Tree, h: nat, i: nat)
    requires Stored(s, t, h) && t.Inner? && i < |t.kids|
    ensures h > 0 && Stored(s, t.kids[i], h - 1)
  {
  }

  lemma FrameHead(s: map<PageId, View>, s': map<PageId, View>, t: Tree, h: nat)
    requires Stored(s, t, h) && SameNode(s, s', t.id)
    ensures t.id in s' && Shows(s'[t.id], t, h) && (t.Leaf? <==> h == 0)
  {
  }

  lemma {:induction false} StoredFrame(s: map<PageId, View>, s': map<PageId, View>, t: Tree, h: nat)
    requires Stored(s, t, h)
    requires forall x | x in Pages(t) :: SameNode(s, s', x)
    ensures Stored(s', t, h)
    decreases t
  {
    hide Stored, Shows, Pages, ForestPages, SameNode;
    PagesOf(t);
    FrameHead(s, s', t, h);
    if t.Inner? {
      forall i | 0 <= i < |t.kids| ensures Stored(s', t.kids[i], h - 1) {
        KidPages(t.kids, i);
        StoredKid(s, t, h, i);
        StoredFrame(s, s', t.kids[i], h - 1);
      }
    }
    StoredNode(s', t, h);
  }

  lemma {:induction false} StoredAt(s: map<PageId, View>, t: Tree, h: nat, path: seq<nat>)
    requires Stored(s, t, h) && IsPath(t, path)
    ensures |path| <= h && Stored(s, At(t, path), h - |path|)
    decreases t
  {
    if path != [] {
      StoredAt(s, t.kids[path[0]], h - 1, path[1..]);
    }
  }

  lemma KidDistinct(t: Tree, p: nat)
    requires t.Inner? && p < |t.kids| && Distinct(Pages(t))
    ensures t.id in Pages(t) && Distinct(Pages(t.kids[p])) && forall x | x in Pages(t.kids[p]) :: x in Pages(t)
  {
    KidPages(t.kids, p);
    PagesOf(t);
    hide Pages, ForestPages;
    DistinctPart(Pages(t.kids[p]), Pages(t));
  }

  /** Storing a changed subtree, and nothing else, stores the changed tree. */
  lemma {:induction false} StoredReplace(s: map<PageId, View>, s': map<PageId, View>, t: Tree, h: nat, path: seq<nat>, u: Tree)
    requires Stored(s, t, h) && IsPath(t, path) && |path| <= h && Distinct(Pages(t))
    requires u.id == At(t, path).id && Stored(s', u, h - |path|)
    requires forall x | x in Pages(t) && x !in Pages(At(t, path)) :: SameNode(s, s', x)
    ensures Stored(s', Replace(t, path, u), h)
    decreases t
  {
    hide Stored, Shows, Pages, ForestPages, Distinct, SameNode;
    if path != [] {
      var p, t' := path[0], Replace(t, path, u);
      PathPages(t, path);
      KidDistinct(t, p);
      RootKept(s, s', t, h, path, u);
      StoredKid(s, t, h, p);
      StoredReplace(s, s', t.kids[p], h - 1, path[1..], u);
      forall j | 0 <= j < |t'.kids| ensures Stored(s', t'.kids[j], h - 1) {
        if j != p {
          SiblingKept(s, s', t, h, path, j);
        }
      }
      StoredNode(s', t', h);
    }
  }

  lemma ReplaceRoot(t: Tree, path: seq<nat>, u: Tree)
    requires IsPath(t, path) && u.id == At(t, path).id
    ensures Replace(t, path, u).id == t.id
    ensures path == [] ==> Replace(t, path, u) == u
  {
  }

  lemma RootKept(s: map<PageId, View>, s': map<PageId, View>, t: Tree, h: nat, path: seq<nat>, u: Tree)
    requires Stored(s, t, h) && IsPath(t, path) && path != [] && u.id == At(t, path).id && SameNode(s, s', t.id)
    ensures var t' := Replace(t, path, u);
      h > 0 && t'.Inner? && t'.id == t.id && |t'.kids| == |t.kids| && t.id in s' && Shows(s'[t.id], t', h)
  {
    var t' := Replace(t, path, u);
    ReplaceRoot(t.kids[path[0]], path[1..], u);
    assert RootIds(t'.kids) == RootIds(t.kids);
  }

  lemma SiblingKept(s: map<PageId, View>, s': map<PageId, View>, t: Tree, h: nat, path: seq<nat>, j: nat)
    requires Stored(s, t, h) && IsPath(t, path) && path != [] && h > 0 && Distinct(Pages(t))
    requires j < |t.kids| && j != path[0]
    requires forall x | x in Pages(t) && x !in Pages(At(t, path)) :: SameNode(s, s', x)
    ensures Stored(s', t.kids[j], h - 1)
  {
    hide Stored, Pages, ForestPages, Distinct, SameNode, At;
    OtherKid(t, path, j);
    StoredKid(s, t, h, j);
    StoredFrame(s, s', t.kids[j], h - 1);
  }

  lemma OtherKid(t: Tree, path: seq<nat>, j: nat)
    requires IsPath(t, path) && path != [] && j < |t.kids| && j != path[0] && Distinct(Pages(t))
    ensures forall x | x in Pages(t.kids[j]) :: x in Pages(t) && x !in Pages(At(t, path))
  {
    var p := path[0];
    PathPages(t.kids[p], path[1..]);
    KidPages(t.kids, j);
    if j < p { TwoKidsPages(t.kids, j, p); } else { TwoKidsPages(t.kids, p, j); }
    PagesOf(t);
    hide Pages, ForestPages;
    forall x | x in Pages(t.kids[j]) ensures x in Pages(t) && x !in Pages(At(t, path)) {
      assert Pages(t)[x] >= Pages(t.kids[j])[x] + Pages(t.kids[p])[x];
    }
  }

  // --------------------------------------------------------------- leaves

  lemma {:induction false} MarksArePages(t: Tree)
    ensures multiset(Marks(Items(t))) <= Pages(t)
    decreases t, 1
  {
    hide Items, Tail, Marks, Pages, ForestPages;
    PagesOf(t);
    match t
    case Leaf(id, keys, vals) =>
      if |keys| == |vals| {
        LeafMarks(t);
      } else {
        OddLeafMarks(t);
      }
    case Inner(id, keys, kids) =>
      InnerMarks(t);
      if kids != [] {
        MarksArePages(kids[0]);
        TailMarksArePages(keys, kids[1..]);
        FirstPages(kids);
        PartsWithin(Marks(Items(kids[0])), Marks(Tail(keys, kids[1..])), Pages(kids[0]), ForestPages(kids[1..]));
      }
  }

  lemma OddLeafMarks(t: Tree)
    requires t.Leaf? && |t.keys| != |t.vals|
    ensures Marks(Items(t)) == [t.id]
  {
    assert Items(t) == [Mark(t.id)];
    assert [Mark(t.id)][1..] == [];
  }

  lemma InnerMarks(t: Tree)
    requires t.Inner?
    ensures Marks(Items(t)) == if t.kids == [] then [] else Marks(Items(t.kids[0])) + Marks(Tail(t.keys, t.kids[1..]))
  {
    if t.kids != [] {
      MarksConcat(Items(t.kids[0]), Tail(t.keys, t.kids[1..]));
    }
  }

  lemma FirstPages(kids: seq<Tree>)
    ensures ForestPages(kids) == if kids == [] then multiset{} else Pages(kids[0]) + ForestPages(kids[1..])
  {
  }

  lemma PartsWithin(xs: seq<PageId>, ys: seq<PageId>, p: multiset<PageId>, q: multiset<PageId>)
    requires multiset(xs) <= p && multiset(ys) <= q
    ensures multiset(xs + ys) <= p + q
  {
  }

  lemma {:induction false} TailMarksArePages(keys: seq<Key>, kids: seq<Tree>)
    ensures multiset(Marks(Tail(keys, kids))) <= ForestPages(kids)
    decreases kids, 0
  {
    hide Items, Tail, Marks, Pages, ForestPages;
    TailMarks(keys, kids);
    if keys != [] && kids != [] {
      MarksArePages(kids[0]);
      TailMarksArePages(keys[1..], kids[1..]);
      FirstPages(kids);
      PartsWithin(Marks(Items(kids[0])), Marks(Tail(keys[1..], kids[1..])), Pages(kids[0]), ForestPages(kids[1..]));
    }
  }

  lemma TailMarks(keys: seq<Key>, kids: seq<Tree>)
    ensures Marks(Tail(keys, kids)) ==
      if keys == [] || kids == [] then [] else Marks(Items(kids[0])) + Marks(Tail(keys[1..], kids[1..]))
  {
    if keys != [] && kids != [] {
      MarksConcat([Sep(keys[0])] + Items(kids[0]), Tail(keys[1..], kids[1..]));
      MarksConcat([Sep(keys[0])], Items(kids[0]));
      assert Marks([Sep(keys[0])]) == [];
      hide Items, Marks;
    }
  }

  lemma MarksDistinct(t: Tree)
    requires Distinct(Pages(t))
    ensures var ms := Marks(Items(t)); forall i, j | 0 <= i < j < |ms| :: ms[i] != ms[j]
    ensures forall m | m in Marks(Items(t)) :: m in Pages(t)
  {
    MarksArePages(t);
    var ms := Marks(Items(t));
    hide Marks, Items, Pages;
    forall m | m in ms ensures m in Pages(t) {
      assert m in multiset(ms);
    }
    forall i, j | 0 <= i < j < |ms| ensures ms[i] != ms[j] {
      if ms[i] == ms[j] {
        Twice(ms, i, j);
        assert false;
      }
    }
  }

  lemma Twice(ms: seq<PageId>, i: nat, j: nat)
    requires i < j < |ms| && ms[i] == ms[j]
    ensures multiset(ms)[ms[i]] >= 2
  {
    assert ms == ms[..j] + ms[j..];
    assert ms[i] in multiset(ms[..j]) && ms[i] in multiset(ms[j..]) by {
      assert ms[..j][i] == ms[i] && ms[j..][0] == ms[i];
    }
  }

  lemma ChainFrame(s: map<PageId, View>, s': map<PageId, View>, ms: seq<PageId>)
    requires Chain(s, ms)
    requires forall m | m in ms :: m in s && m in s' && s'[m].next == s[m].next && s'[m].prev == s[m].prev
    ensures Chain(s', ms)
  {
    forall i | 0 <= i < |ms| ensures Linked(s', ms, i) {
      assert Linked(s, ms, i);
    }
  }

  /** Unlinking leaf `r` just after leaf `l`, and telling its successor, keeps the
      list of leaves doubly linked. */
  lemma ChainFold(s: map<PageId, View>, s': map<PageId, View>, ms: seq<PageId>, ms': seq<PageId>, l: PageId, r: PageId)
    requires Chain(s, ms) && Folded(ms, l, r, ms') && l in s && r in s
    requires forall i, j | 0 <= i < j < |ms| :: ms[i] != ms[j]
    requires 0 !in ms
    requires forall m | m in ms && m != r :: Unlinked(s, s', l, r, m)
    ensures Chain(s', ms')
  {
    var p, q :| ms == p + [l, r] + q && ms' == p + [l] + q;
    var n := |p|;
    assert ms[n] == l && ms[n + 1] == r;
    forall i | 0 <= i < |ms'| ensures Linked(s', ms', i) {
      ChainFoldAt(s, s', ms, p, l, r, q, i);
    }
  }

  ghost predicate Unlinked(s: map<PageId, View>, s': map<PageId, View>, l: PageId, r: PageId, m: PageId)
    requires r in s
  {
    && m in s && m in s'
    && s'[m].next == (if m == l then s[r].next else s[m].next)
    && s'[m].prev == (if m == s[r].next then l else s[m].prev)
  }

  lemma ChainFoldAt(s: map<PageId, View>, s': map<PageId, View>, ms: seq<PageId>,
                    p: seq<PageId>, l: PageId, r: PageId, q: seq<PageId>, i: nat)
    requires ms == p + [l, r] + q && i < |ms| - 1
    requires Chain(s, ms) && r in s
    requires forall i, j | 0 <= i < j < |ms| :: ms[i] != ms[j]
    requires 0 !in ms
    requires forall m | m in ms && m != r :: Unlinked(s, s', l, r, m)
    ensures Linked(s', p + [l] + q, i)
  {
    var n := |p|;
    assert ms[n] == l && ms[n + 1] == r;
    var ms', k := p + [l] + q, if i <= n then i else i + 1;
    assert forall j | 0 <= j < |ms'| :: ms'[j] == ms[if j <= n then j else j + 1];
    assert Unlinked(s, s', l, r, ms[k]);
    assert Linked(s, ms, k) && Linked(s, ms, n + 1);
    if i < n {
      assert ms[k] != l && ms[k] != s[r].next;
    } else if i == n {
      assert ms[k] != s[r].next;
    } else if i == n + 1 {
      assert ms[k] == s[r].next && ms[k] != l;
    } else {
      assert ms[k] != l && ms[k] != s[r].next;
    }
  }
}
