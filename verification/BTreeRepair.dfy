/** The three repairs of a short node, as transformations of trees: moving one
    entry over from the left or the right sibling, and folding two siblings
    into one. Each keeps the contents, the key order, the uniform depth and the
    order of the leaves. */
module BTreeRepair {
  import opened BTreeModel

  /** Kid `s` gives its last entry to kid `s + 1`. */
  ghost function BorrowLeft(u: Tree, s: nat): Tree
    requires CanRepair(u, s) && |u.kids[s].keys| > 0
  {
    var l, n, k := u.kids[s], u.kids[s + 1], u.keys[s];
    var last := |l.keys| - 1;
    var l' := if l.Leaf? then Leaf(l.id, l.keys[..last], l.vals[..last])
              else Inner(l.id, l.keys[..last], l.kids[..last + 1]);
    var n' := if n.Leaf? then Leaf(n.id, [l.keys[last]] + n.keys, [l.vals[last]] + n.vals)
              else Inner(n.id, [k] + n.keys, [l.kids[last + 1]] + n.kids);
    Inner(u.id, u.keys[s := l.keys[last]], u.kids[s := l'][s + 1 := n'])
  }

  /** Kid `s + 1` gives its first entry to kid `s`. In a leaf the separator
      becomes the giver's new first key, so the giver must keep one. */
  ghost function BorrowRight(u: Tree, s: nat): Tree
    requires CanRepair(u, s) && |u.kids[s + 1].keys| > 1
  {
    var n, r, k := u.kids[s], u.kids[s + 1], u.keys[s];
    var n' := if n.Leaf? then Leaf(n.id, n.keys + [r.keys[0]], n.vals + [r.vals[0]])
              else Inner(n.id, n.keys + [k], n.kids + [r.kids[0]]);
    var r' := if r.Leaf? then Leaf(r.id, r.keys[1..], r.vals[1..])
              else Inner(r.id, r.keys[1..], r.kids[1..]);
    var k' := if r.Leaf? then r.keys[1] else r.keys[0];
    Inner(u.id, u.keys[s := k'], u.kids[s := n'][s + 1 := r'])
  }

  /** Kid `s + 1` is folded into kid `s`. */
  ghost function Merge(u: Tree, s: nat): Tree
    requires CanRepair(u, s)
  {
    var l, r, k := u.kids[s], u.kids[s + 1], u.keys[s];
    var m := if l.Leaf? then Leaf(l.id, l.keys + r.keys, l.vals + r.vals)
             else Inner(l.id, l.keys + [k] + r.keys, l.kids + r.kids);
    Inner(u.id, u.keys[..s] + u.keys[s + 1..], u.kids[..s] + [m] + u.kids[s + 2..])
  }

  ghost predicate Sized(t: Tree) {
    match t
    case Leaf(_, keys, vals) => |vals| == |keys|
    case Inner(_, keys, kids) => |kids| == |keys| + 1
  }

  ghost predicate CanRepair(u: Tree, s: nat) {
    && u.Inner? && |u.kids| == |u.keys| + 1
    && s < |u.keys|
    && Sized(u.kids[s]) && Sized(u.kids[s + 1])
    && u.kids[s].Leaf? == u.kids[s + 1].Leaf?
  }

  // -------------------------------------------------------- two neighbours

  ghost function Mid(l: Tree, k: Key, r: Tree): seq<Item> {
    Items(l) + [Sep(k)] + Items(r)
  }

  /** Two neighbours can be read in the middle of their parent. */
  lemma ItemsPair(u: Tree, s: nat)
    requires u.Inner? && |u.kids| == |u.keys| + 1 && s < |u.keys|
    ensures Items(u) == Left(u.keys, u.kids, s) + Mid(u.kids[s], u.keys[s], u.kids[s + 1])
                        + Tail(u.keys[s + 1..], u.kids[s + 2..])
  {
    ItemsAt(u.id, u.keys, u.kids, s);
    var l, a, x, b, z := Left(u.keys, u.kids, s), Items(u.kids[s]), [Sep(u.keys[s])], Items(u.kids[s + 1]),
      Tail(u.keys[s + 1..], u.kids[s + 2..]);
    assert u.keys[s..][1..] == u.keys[s + 1..] && u.kids[s + 1..][1..] == u.kids[s + 2..];
    assert Tail(u.keys[s..], u.kids[s + 1..]) == x + b + z;
    Around(l, a, x, b, z);
  }

  lemma Around(l: seq<Item>, a: seq<Item>, x: seq<Item>, b: seq<Item>, z: seq<Item>)
    ensures l + a + (x + b + z) == l + (a + x + b) + z
  {
  }

  lemma ItemsPairChanged(u: Tree, s: nat, l: Tree, k: Key, r: Tree)
    requires u.Inner? && |u.kids| == |u.keys| + 1 && s < |u.keys|
    ensures Items(Inner(u.id, u.keys[s := k], u.kids[s := l][s + 1 := r])) ==
            Left(u.keys, u.kids, s) + Mid(l, k, r) + Tail(u.keys[s + 1..], u.kids[s + 2..])
  {
    var keys', kids' := u.keys[s := k], u.kids[s := l][s + 1 := r];
    ItemsPair(Inner(u.id, keys', kids'), s);
    assert keys'[s + 1..] == u.keys[s + 1..] && kids'[s + 2..] == u.kids[s + 2..];
    if s > 0 {
      assert keys'[..s - 1] == u.keys[..s - 1] && kids'[1..s] == u.kids[1..s];
    }
  }

  lemma ItemsPairMerged(u: Tree, s: nat, m: Tree)
    requires u.Inner? && |u.kids| == |u.keys| + 1 && s < |u.keys|
    ensures Items(Inner(u.id, u.keys[..s] + u.keys[s + 1..], u.kids[..s] + [m] + u.kids[s + 2..])) ==
            Left(u.keys, u.kids, s) + Items(m) + Tail(u.keys[s + 1..], u.kids[s + 2..])
  {
    var keys', kids' := u.keys[..s] + u.keys[s + 1..], u.kids[..s] + [m] + u.kids[s + 2..];
    ItemsAt(u.id, keys', kids', s);
    assert keys'[s..] == u.keys[s + 1..] && kids'[s + 1..] == u.kids[s + 2..];
    if s > 0 {
      assert keys'[..s - 1] == u.keys[..s - 1] && kids'[1..s] == u.kids[1..s];
    }
  }

  /** Inner nodes joined around a separator read as the two around it. */
  lemma Join(id: PageId, kl: seq<Key>, cl: seq<Tree>, k: Key, kr: seq<Key>, cr: seq<Tree>)
    requires |cl| == |kl| + 1 && |cr| == |kr| + 1
    ensures Items(Inner(id, kl + [k] + kr, cl + cr)) ==
            Items(Inner(id, kl, cl)) + [Sep(k)] + Items(Inner(id, kr, cr))
  {
    var ks, cs := kl + [k] + kr, cl + cr;
    ItemsAt(id, ks, cs, |cl|);
    assert ks[|cl|..] == kr && cs[|cl| + 1..] == cr[1..];
    assert ks[..|cl| - 1] == kl && cs[1..|cl|] == cl[1..];
    assert cs[|cl|] == cr[0] && cs[0] == cl[0];
  }

  lemma RotateInnerLeft(l: Tree, k: Key, n: Tree, l': Tree, n': Tree)
    requires l.Inner? && n.Inner? && l'.Inner? && n'.Inner? && Sized(l) && Sized(n) && |l.keys| > 0
    requires l'.keys == l.keys[..|l.keys| - 1] && l'.kids == l.kids[..|l.keys|]
    requires n'.keys == [k] + n.keys && n'.kids == [l.kids[|l.keys|]] + n.kids
    ensures Mid(l', l.keys[|l.keys| - 1], n') == Mid(l, k, n)
  {
    var last := |l.keys| - 1;
    var x := l.kids[last + 1];
    Join(l.id, l'.keys, l'.kids, l.keys[last], [], [x]);
    assert l.keys == l'.keys + [l.keys[last]] + [] && l.kids == l'.kids + [x];
    Join(n.id, [], [x], k, n.keys, n.kids);
    assert n'.keys == [] + [k] + n.keys;
    assert Items(Inner(l.id, [], [x])) == Items(x) + [] && Items(Inner(n.id, [], [x])) == Items(x) + [];
  }

  lemma RotateInnerRight(n: Tree, k: Key, r: Tree, n': Tree, r': Tree)
    requires n.Inner? && r.Inner? && n'.Inner? && r'.Inner? && Sized(n) && Sized(r) && |r.keys| > 0
    requires n'.keys == n.keys + [k] && n'.kids == n.kids + [r.kids[0]]
    requires r'.keys == r.keys[1..] && r'.kids == r.kids[1..]
    ensures Mid(n', r.keys[0], r') == Mid(n, k, r)
  {
    var x := r.kids[0];
    Join(n.id, n.keys, n.kids, k, [], [x]);
    assert n'.keys == n.keys + [k] + [];
    Join(r.id, [], [x], r.keys[0], r'.keys, r'.kids);
    assert r.keys == [] + [r.keys[0]] + r'.keys && r.kids == [x] + r'.kids;
    assert Items(Inner(r.id, [], [x])) == Items(x) + [] && Items(Inner(n.id, [], [x])) == Items(x) + [];
  }

  // ---------------------------------------------------- what a repair keeps

  /** `ys` may stand wherever `xs` stands: same entries, and the order of any
      surrounding sequence survives. */
  ghost predicate Refits(xs: seq<Item>, ys: seq<Item>) {
    && Entries(xs) == Entries(ys)
    && (Ordered(xs) ==> Ordered(ys))
    && Within(ys, xs)
  }

  lemma RefitsInContext(a: seq<Item>, xs: seq<Item>, ys: seq<Item>, b: seq<Item>)
    requires Refits(xs, ys)
    ensures Entries(a + xs + b) == Entries(a + ys + b)
    ensures Ordered(a + xs + b) ==> Ordered(a + ys + b)
    ensures Marks(xs) == Marks(ys) ==> Marks(a + xs + b) == Marks(a + ys + b)
  {
    EntriesConcat(a + xs, b); EntriesConcat(a, xs);
    EntriesConcat(a + ys, b); EntriesConcat(a, ys);
    MarksConcat(a + xs, b); MarksConcat(a, xs);
    MarksConcat(a + ys, b); MarksConcat(a, ys);
    if Ordered(a + xs + b) {
      OrderedConcat(a + xs, b); OrderedConcat(a, xs);
      OrderedSwap(a, xs, ys, b);
    }
  }

  lemma RefitsSelf(xs: seq<Item>)
    ensures Refits(xs, xs)
  {
    forall j | 0 <= j < |xs| ensures xs[j] in xs {}
  }

  /** An item that is no entry (no mark) does not count for the contents (the leaves). */
  lemma {:induction false} Skip(a: seq<Item>, x: Item, b: seq<Item>)
    ensures !x.Entry? ==> Entries(a + [x] + b) == Entries(a + b)
    ensures !x.Mark? ==> Marks(a + [x] + b) == Marks(a + b)
    decreases |a|
  {
    if a == [] {
      assert a + b == b && (a + [x] + b)[1..] == b;
    } else {
      assert (a + [x] + b)[1..] == a[1..] + [x] + b && (a + b)[1..] == a[1..] + b;
      Skip(a[1..], x, b);
    }
  }

  lemma BorrowRead(l: seq<Item>, e: Item, k: Key, s: Key, m: Item, n: seq<Item>)
    requires e.Entry? && m.Mark?
    ensures Entries(l + [e] + [Sep(k)] + [m] + n) == Entries(l + [Sep(s)] + [m] + [e] + n)
    ensures Marks(l + [e] + [Sep(k)] + [m] + n) == Marks(l + [Sep(s)] + [m] + [e] + n)
  {
    var xs, ys := l + [e] + [Sep(k)] + [m] + n, l + [Sep(s)] + [m] + [e] + n;
    Skip(l + [e], Sep(k), [m] + n);
    assert xs == (l + [e]) + [Sep(k)] + ([m] + n);
    Skip(l, Sep(s), [m] + [e] + n);
    assert ys == l + [Sep(s)] + ([m] + [e] + n);
    Skip(l + [e], m, n);
    assert (l + [e]) + ([m] + n) == (l + [e]) + [m] + n;
    Skip(l, m, [e] + n);
    assert l + ([m] + [e] + n) == l + [m] + ([e] + n);
    assert (l + [e]) + n == l + ([e] + n);
    Skip(l, e, [m] + n);
    assert (l + [e]) + ([m] + n) == l + [e] + ([m] + n);
    Skip(l + [m], e, n);
    assert l + ([m] + [e] + n) == (l + [m]) + [e] + n;
    assert (l + [m]) + n == l + ([m] + n);
  }

  /** `xs` is `a + [Sep(s)] + b` and `ys` is `a' + [Sep(s')] + b'`, where one
      entry moved across the separator, which became that entry's key or its
      successor's. */
  lemma RefitsBorrow(xs: seq<Item>, ys: seq<Item>, l: seq<Item>, e: Item, k: Key, m: seq<Item>, n: seq<Item>)
    requires e.Entry? && |m| == 1 && m[0].Mark?
    requires xs == l + [e] + [Sep(k)] + m + n && ys == l + [Sep(e.key)] + m + [e] + n
    ensures Refits(xs, ys) && Marks(xs) == Marks(ys)
  {
    assert m == [m[0]];
    BorrowRead(l, e, k, e.key, m[0], n);
    BorrowOrder(xs, ys, l, e, k, m, n);
  }

  lemma BorrowOrder(xs: seq<Item>, ys: seq<Item>, l: seq<Item>, e: Item, k: Key, m: seq<Item>, n: seq<Item>)
    requires e.Entry? && |m| == 1 && m[0].Mark?
    requires xs == l + [e] + [Sep(k)] + m + n && ys == l + [Sep(e.key)] + m + [e] + n
    ensures (Ordered(xs) ==> Ordered(ys)) && Within(ys, xs)
  {
    assert xs[|l|] == e;
    forall j | 0 <= j < |ys| && j != |l| ensures ys[j] in xs {
      if j < |l| { assert ys[j] == xs[j]; }
      else if j == |l| + 1 { assert ys[j] == xs[|l| + 2]; }
      else if j == |l| + 2 { assert ys[j] == xs[|l|]; }
      else { assert ys[j] == xs[j]; }
    }
    if Ordered(xs) {
      forall i, j | 0 <= i < j < |ys| ensures Before(ys[i], ys[j]) {
        if ys[i].Mark? || ys[j].Mark? {
        } else {
          var i' := if i < |l| then i else if i <= |l| + 2 then |l| else i;
          var j' := if j < |l| then j else if j <= |l| + 2 then |l| else j;
          assert i' < j' ==> Before(xs[i'], xs[j']);
        }
      }
    }
  }

  lemma RefitsGive(xs: seq<Item>, ys: seq<Item>, l: seq<Item>, e: Item, f: Item, k: Key, m: seq<Item>, n: seq<Item>)
    requires e.Entry? && f.Entry? && |m| == 1 && m[0].Mark?
    requires xs == l + [Sep(k)] + m + [e] + ([f] + n) && ys == l + [e] + [Sep(f.key)] + m + ([f] + n)
    ensures Refits(xs, ys) && Marks(xs) == Marks(ys)
  {
    var fn := [f] + n;
    assert m == [m[0]];
    BorrowRead(l, e, f.key, k, m[0], fn);
    GiveOrder(xs, ys, l, e, f, k, m, n);
  }

  lemma GiveOrder(xs: seq<Item>, ys: seq<Item>, l: seq<Item>, e: Item, f: Item, k: Key, m: seq<Item>, n: seq<Item>)
    requires e.Entry? && f.Entry? && |m| == 1 && m[0].Mark?
    requires xs == l + [Sep(k)] + m + [e] + ([f] + n) && ys == l + [e] + [Sep(f.key)] + m + ([f] + n)
    ensures (Ordered(xs) ==> Ordered(ys)) && Within(ys, xs)
  {
    var a := |l|;
    assert xs[a + 2] == e && xs[a + 3] == f;
    forall j | 0 <= j < |ys| && j != a + 1 ensures ys[j] in xs {
      if j < a { assert ys[j] == xs[j]; }
      else if j == a { assert ys[j] == xs[a + 2]; }
      else if j == a + 2 { assert ys[j] == xs[a + 1]; }
      else { assert ys[j] == xs[j]; }
    }
    if Ordered(xs) {
      forall i, j | 0 <= i < j < |ys| ensures Before(ys[i], ys[j]) {
        if ys[i].Mark? || ys[j].Mark? {
        } else {
          var i' := if i < a then i else if i == a then a + 2 else if i <= a + 2 then a + 3 else i;
          var j' := if j < a then j else if j == a then a + 2 else if j <= a + 2 then a + 3 else j;
          assert i' < j' ==> Before(xs[i'], xs[j']);
        }
      }
    }
  }

  /** Folding a leaf into its left neighbour drops one separator and one mark. */
  lemma RefitsMerge(xs: seq<Item>, ys: seq<Item>, l: seq<Item>, k: Key, m: seq<Item>, n: seq<Item>)
    requires |m| == 1 && m[0].Mark?
    requires xs == l + [Sep(k)] + m + n && ys == l + n
    ensures Refits(xs, ys)
    ensures Marks(xs) == Marks(l) + [m[0].leaf] + Marks(n) && Marks(ys) == Marks(l) + Marks(n)
  {
    hide Entries, Ordered, Within, Marks;
    MergeRead(l, k, m[0], n);
    assert m == [m[0]];
    MergeOrder(xs, ys, l, k, m, n);
  }

  lemma MergeRead(l: seq<Item>, k: Key, m: Item, n: seq<Item>)
    requires m.Mark?
    ensures Entries(l + [Sep(k)] + [m] + n) == Entries(l + n)
    ensures Marks(l + [Sep(k)] + [m] + n) == Marks(l) + [m.leaf] + Marks(n)
    ensures Marks(l + n) == Marks(l) + Marks(n)
  {
    Skip(l, Sep(k), [m] + n);
    assert l + [Sep(k)] + [m] + n == l + [Sep(k)] + ([m] + n);
    Skip(l, m, n);
    assert l + ([m] + n) == l + [m] + n;
    MarksConcat(l, [m] + n);
    MarksConcat(l, n);
    assert ([m] + n)[1..] == n;
  }

  lemma MergeOrder(xs: seq<Item>, ys: seq<Item>, l: seq<Item>, k: Key, m: seq<Item>, n: seq<Item>)
    requires |m| == 1 && m[0].Mark?
    requires xs == l + [Sep(k)] + m + n && ys == l + n
    ensures (Ordered(xs) ==> Ordered(ys)) && Within(ys, xs)
  {
    forall j | 0 <= j < |ys| ensures ys[j] in xs {
      assert ys[j] == xs[if j < |l| then j else j + 2];
    }
    if Ordered(xs) {
      forall i, j | 0 <= i < j < |ys| ensures Before(ys[i], ys[j]) {
        assert Before(xs[if i < |l| then i else i + 2], xs[if j < |l| then j else j + 2]);
      }
    }
  }

  // ------------------------------------------------------- the whole repair

  /** Reading `u'` for `u` moves one stretch and keeps the contents and the order
      of everything around it. */
  ghost predicate Rereads(u: Tree, u': Tree) {
    exists a, xs, ys, b ::
      Items(u) == a + xs + b && Items(u') == a + ys + b && Refits(xs, ys)
  }

  /** Leaf page `gone` disappears from its place just after leaf page `into`. */
  ghost predicate Folded(ms: seq<PageId>, into: PageId, gone: PageId, ms': seq<PageId>) {
    exists p, q :: ms == p + [into, gone] + q && ms' == p + [into] + q
  }

  /** A parent whose kids are all well filled, except that kid `i` may be short. */
  ghost predicate Parent(u: Tree, h: nat, lo: nat, i: nat) {
    && u.Inner? && h > 0
    && lo <= |u.keys| <= MAX_KEYS && |u.kids| == |u.keys| + 1 && i < |u.kids|
    && Ok(u.kids[i], h - 1, 1)
    && forall j | 0 <= j < |u.kids| && j != i :: Ok(u.kids[j], h - 1, MIN_KEYS)
  }

  lemma PagesPair(u: Tree, s: nat)
    requires u.Inner? && s + 1 < |u.kids|
    ensures Pages(u) == multiset{u.id} + ForestPages(u.kids[..s])
                        + (Pages(u.kids[s]) + Pages(u.kids[s + 1])) + ForestPages(u.kids[s + 2..])
  {
    ForestPagesAt(u.kids, s);
    assert u.kids[s + 1..][1..] == u.kids[s + 2..];
  }

  lemma PagesPairChanged(u: Tree, s: nat, k: Key, l: Tree, r: Tree)
    requires u.Inner? && s + 1 < |u.kids| && s < |u.keys|
    requires Pages(l) + Pages(r) == Pages(u.kids[s]) + Pages(u.kids[s + 1])
    ensures Pages(Inner(u.id, u.keys[s := k], u.kids[s := l][s + 1 := r])) == Pages(u)
  {
    hide Pages, ForestPages;
    PagesPair(u, s);
    var kids' := u.kids[s := l][s + 1 := r];
    PagesPair(Inner(u.id, u.keys[s := k], kids'), s);
    assert kids'[..s] == u.kids[..s] && kids'[s + 2..] == u.kids[s + 2..];
  }

  lemma PagesOf(t: Tree)
    ensures t.Leaf? ==> Pages(t) == multiset{t.id}
    ensures t.Inner? ==> Pages(t) == multiset{t.id} + ForestPages(t.kids)
  {
  }

  lemma SumMove(a: multiset<PageId>, l: multiset<PageId>, x: multiset<PageId>, b: multiset<PageId>, r: multiset<PageId>)
    ensures (a + (l + x)) + (b + r) == (a + l) + (b + (x + r))
  {
  }

  /** A subtree `x` at the front of one node or at the back of its neighbour. */
  lemma MovedPages(a: Tree, b: Tree, a': Tree, b': Tree, x: Tree)
    requires a.Inner? && b.Inner? && a'.Inner? && b'.Inner? && a.id == a'.id && b.id == b'.id
    requires a'.kids == a.kids + [x] && b.kids == [x] + b'.kids
    ensures Pages(a) + Pages(b) == Pages(a') + Pages(b')
  {
    ForestPagesConcat(a.kids, [x]);
    ForestPagesConcat([x], b'.kids);
    assert ForestPages([x]) == Pages(x) + ForestPages([]);
    PagesOf(a); PagesOf(b); PagesOf(a'); PagesOf(b');
    hide Pages, ForestPages;
    SumMove(multiset{a.id}, ForestPages(a.kids), ForestPages([x]), multiset{b.id}, ForestPages(b'.kids));
  }

  /** A borrow or a fold leaves the meaning of the parent alone. */
  lemma ChangedReads(u: Tree, s: nat, l: Tree, k: Key, r: Tree)
    requires u.Inner? && |u.kids| == |u.keys| + 1 && s < |u.keys|
    requires var xs, ys := Mid(u.kids[s], u.keys[s], u.kids[s + 1]), Mid(l, k, r);
      Refits(xs, ys) && Marks(xs) == Marks(ys)
    ensures var u' := Inner(u.id, u.keys[s := k], u.kids[s := l][s + 1 := r]);
      Rereads(u, u') && Marks(Items(u)) == Marks(Items(u'))
  {
    ItemsPair(u, s);
    ItemsPairChanged(u, s, l, k, r);
    RefitsInContext(Left(u.keys, u.kids, s), Mid(u.kids[s], u.keys[s], u.kids[s + 1]), Mid(l, k, r),
      Tail(u.keys[s + 1..], u.kids[s + 2..]));
  }

  lemma BorrowLeafLeft(l: Tree, k: Key, n: Tree, l': Tree, n': Tree)
    requires l.Leaf? && n.Leaf? && Sized(l) && Sized(n) && |l.keys| > 0
    requires var last := |l.keys| - 1;
      && l' == Leaf(l.id, l.keys[..last], l.vals[..last])
      && n' == Leaf(n.id, [l.keys[last]] + n.keys, [l.vals[last]] + n.vals)
    ensures var xs, ys := Mid(l, k, n), Mid(l', l.keys[|l.keys| - 1], n');
      Refits(xs, ys) && Marks(xs) == Marks(ys)
  {
    hide Entries, Marks, Refits, Tail;
    var last := |l.keys| - 1;
    var e := Entry(l.keys[last], l.vals[last]);
    var ns := LeafItems(n.keys, n.vals);
    assert Items(l) == Items(l') + [e];
    assert LeafItems(n'.keys, n'.vals) == [e] + ns;
    RefitsBorrow(Mid(l, k, n), Mid(l', l.keys[last], n'), Items(l'), e, k, [Mark(n.id)], ns);
  }

  lemma LeafHead(keys: seq<Key>, vals: seq<PageId>)
    requires |keys| == |vals| > 0
    ensures LeafItems(keys, vals) == [Entry(keys[0], vals[0])] + LeafItems(keys[1..], vals[1..])
  {
  }

  lemma LeafGives(n: Tree, r: Tree, n': Tree, r': Tree, e: Item, f: Item) returns (rest: seq<Item>)
    requires n.Leaf? && r.Leaf? && Sized(n) && Sized(r) && |r.keys| > 1
    requires n' == Leaf(n.id, n.keys + [r.keys[0]], n.vals + [r.vals[0]])
    requires r' == Leaf(r.id, r.keys[1..], r.vals[1..])
    requires e == Entry(r.keys[0], r.vals[0]) && f == Entry(r.keys[1], r.vals[1])
    ensures Items(n') == Items(n) + [e]
    ensures Items(r) == [Mark(r.id)] + ([e] + ([f] + rest)) && Items(r') == [Mark(r.id)] + ([f] + rest)
  {
    rest := LeafItems(r'.keys[1..], r'.vals[1..]);
    LeafHead(r.keys, r.vals);
    LeafHead(r'.keys, r'.vals);
  }

  lemma BorrowLeafRight(n: Tree, k: Key, r: Tree, n': Tree, r': Tree)
    requires n.Leaf? && r.Leaf? && Sized(n) && Sized(r) && |r.keys| > 1
    requires n' == Leaf(n.id, n.keys + [r.keys[0]], n.vals + [r.vals[0]])
    requires r' == Leaf(r.id, r.keys[1..], r.vals[1..])
    ensures var xs, ys := Mid(n, k, r), Mid(n', r.keys[1], r');
      Refits(xs, ys) && Marks(xs) == Marks(ys)
  {
    hide Entries, Marks, Refits, Tail, Items;
    var e, f := Entry(r.keys[0], r.vals[0]), Entry(r.keys[1], r.vals[1]);
    var rest := LeafGives(n, r, n', r', e, f);
    RefitsGive(Mid(n, k, r), Mid(n', r.keys[1], r'), Items(n), e, f, k, [Mark(r.id)], rest);
  }

  lemma BorrowLeftSame(l: Tree, k: Key, n: Tree, l': Tree, n': Tree)
    requires Sized(l) && Sized(n) && l.Leaf? == n.Leaf? && |l.keys| > 0
    requires var last := |l.keys| - 1;
      if l.Leaf? then
        && l' == Leaf(l.id, l.keys[..last], l.vals[..last])
        && n' == Leaf(n.id, [l.keys[last]] + n.keys, [l.vals[last]] + n.vals)
      else
        && l' == Inner(l.id, l.keys[..last], l.kids[..last + 1])
        && n' == Inner(n.id, [k] + n.keys, [l.kids[last + 1]] + n.kids)
    ensures var xs, ys := Mid(l, k, n), Mid(l', l.keys[|l.keys| - 1], n');
      Refits(xs, ys) && Marks(xs) == Marks(ys)
    ensures Pages(l') + Pages(n') == Pages(l) + Pages(n)
  {
    hide Refits, Marks, Tail, Items, Mid, Pages, ForestPages;
    if l.Leaf? {
      BorrowLeafLeft(l, k, n, l', n');
      PagesOf(l); PagesOf(n); PagesOf(l'); PagesOf(n');
    } else {
      RotateInnerLeft(l, k, n, l', n');
      RefitsSelf(Mid(l, k, n));
      assert l.kids == l'.kids + [l.kids[|l.keys|]];
      MovedPages(l', n', l, n, l.kids[|l.keys|]);
    }
  }

  lemma BorrowRightSame(n: Tree, k: Key, r: Tree, n': Tree, r': Tree)
    requires Sized(n) && Sized(r) && n.Leaf? == r.Leaf? && |r.keys| > 1
    requires if r.Leaf? then
        && n' == Leaf(n.id, n.keys + [r.keys[0]], n.vals + [r.vals[0]])
        && r' == Leaf(r.id, r.keys[1..], r.vals[1..])
      else
        && n' == Inner(n.id, n.keys + [k], n.kids + [r.kids[0]])
        && r' == Inner(r.id, r.keys[1..], r.kids[1..])
    ensures var k' := if r.Leaf? then r.keys[1] else r.keys[0];
      var xs, ys := Mid(n, k, r), Mid(n', k', r');
      Refits(xs, ys) && Marks(xs) == Marks(ys)
    ensures Pages(n') + Pages(r') == Pages(n) + Pages(r)
  {
    hide Refits, Marks, Tail, Items, Mid, Pages, ForestPages;
    if r.Leaf? {
      BorrowLeafRight(n, k, r, n', r');
      PagesOf(n); PagesOf(r); PagesOf(n'); PagesOf(r');
    } else {
      RotateInnerRight(n, k, r, n', r');
      RefitsSelf(Mid(n, k, r));
      assert r.kids == [r.kids[0]] + r'.kids;
      MovedPages(n, r, n', r', r.kids[0]);
    }
  }

  lemma PairOk(u: Tree, h: nat, lo: nat, s: nat, i: nat, k: Key, l: Tree, r: Tree)
    requires (i == s || i == s + 1) && Parent(u, h, lo, i) && s < |u.keys|
    requires Ok(l, h - 1, MIN_KEYS) && Ok(r, h - 1, MIN_KEYS)
    ensures Ok(Inner(u.id, u.keys[s := k], u.kids[s := l][s + 1 := r]), h, lo)
  {
  }

  /** Borrowing from the left sibling repairs the short kid `s + 1`. */
  lemma BorrowLeftKeeps(u: Tree, h: nat, lo: nat, s: nat)
    requires Parent(u, h, lo, s + 1)
    requires |u.kids[s].keys| > MIN_KEYS && |u.kids[s + 1].keys| < MIN_KEYS
    ensures CanRepair(u, s)
    ensures var u' := BorrowLeft(u, s);
      && u'.id == u.id && Ok(u', h, lo) && Pages(u') == Pages(u)
      && Rereads(u, u') && Marks(Items(u)) == Marks(Items(u'))
  {
    hide Items, Tail, Marks, Pages, ForestPages, Rereads, Refits;
    var l, n, k := u.kids[s], u.kids[s + 1], u.keys[s];
    var u' := BorrowLeft(u, s);
    var l', n', k' := u'.kids[s], u'.kids[s + 1], l.keys[|l.keys| - 1];
    PairOk(u, h, lo, s, s + 1, k', l', n');
    BorrowLeftSame(l, k, n, l', n');
    ChangedReads(u, s, l', k', n');
    PagesPairChanged(u, s, k', l', n');
  }

  /** Borrowing from the right sibling repairs the short kid `s`. */
  lemma BorrowRightKeeps(u: Tree, h: nat, lo: nat, s: nat)
    requires Parent(u, h, lo, s) && s + 1 < |u.kids|
    requires |u.kids[s + 1].keys| > MIN_KEYS && |u.kids[s].keys| < MIN_KEYS
    ensures CanRepair(u, s)
    ensures var u' := BorrowRight(u, s);
      && u'.id == u.id && Ok(u', h, lo) && Pages(u') == Pages(u)
      && Rereads(u, u') && Marks(Items(u)) == Marks(Items(u'))
  {
    hide Items, Tail, Marks, Pages, ForestPages, Rereads, Refits;
    var n, r, k := u.kids[s], u.kids[s + 1], u.keys[s];
    var u' := BorrowRight(u, s);
    var n', r', k' := u'.kids[s], u'.kids[s + 1], u'.keys[s];
    PairOk(u, h, lo, s, s, k', n', r');
    BorrowRightSame(n, k, r, n', r');
    ChangedReads(u, s, n', k', r');
    PagesPairChanged(u, s, k', n', r');
  }

  lemma SumMerge(i: multiset<PageId>, a: multiset<PageId>, lr: multiset<PageId>, m: multiset<PageId>,
                 r: multiset<PageId>, b: multiset<PageId>)
    requires lr == m + r
    ensures i + a + lr + b == (i + (a + m + b)) + r
  {
  }

  lemma MergedPages(l: Tree, r: Tree, m: Tree)
    requires if l.Leaf? then r.Leaf? && m.Leaf? else r.Inner? && m.Inner? && m.kids == l.kids + r.kids
    requires m.id == l.id
    ensures Pages(l) + Pages(r) == Pages(m) + multiset{r.id}
  {
    PagesOf(l); PagesOf(r); PagesOf(m);
    hide Pages, ForestPages;
    if l.Inner? {
      ForestPagesConcat(l.kids, r.kids);
    }
  }

  lemma MergePages(u: Tree, s: nat)
    requires CanRepair(u, s)
    ensures Pages(u) == Pages(Merge(u, s)) + multiset{u.kids[s + 1].id}
  {
    var l, r := u.kids[s], u.kids[s + 1];
    var u' := Merge(u, s);
    var m := u'.kids[s];
    var a, b := u.kids[..s], u.kids[s + 2..];
    MergedPages(l, r, m);
    PagesOf(u');
    PagesPair(u, s);
    ForestPagesAt(u'.kids, s);
    assert u'.kids[..s] == a && u'.kids[s + 1..] == b;
    hide Pages, ForestPages, Merge;
    SumMerge(multiset{u.id}, ForestPages(a), Pages(l) + Pages(r), Pages(m), multiset{r.id}, ForestPages(b));
  }

  lemma MergeOk(u: Tree, h: nat, lo: nat, s: nat, i: nat)
    requires (i == s || i == s + 1) && Parent(u, h, lo, i) && s < |u.keys| && lo > 0
    requires |u.kids[s].keys| + |u.kids[s + 1].keys| < 2 * MIN_KEYS
    ensures CanRepair(u, s) && Ok(Merge(u, s), h, lo - 1)
  {
    var u' := Merge(u, s);
    var m := u'.kids[s];
    assert Ok(m, h - 1, MIN_KEYS);
    forall j | 0 <= j < |u'.kids| ensures Ok(u'.kids[j], h - 1, MIN_KEYS) {
      if j < s {
        assert u'.kids[j] == u.kids[j];
      } else if j > s {
        assert u'.kids[j] == u.kids[j + 1];
      }
    }
  }

  lemma MergeReads(u: Tree, s: nat)
    requires CanRepair(u, s)
    ensures var u' := Merge(u, s); var l, r := u.kids[s], u.kids[s + 1];
      && Rereads(u, u')
      && (l.Leaf? ==> Folded(Marks(Items(u)), l.id, r.id, Marks(Items(u'))))
      && (l.Inner? ==> Marks(Items(u)) == Marks(Items(u')))
  {
    var l, r, k := u.kids[s], u.kids[s + 1], u.keys[s];
    var u' := Merge(u, s);
    var m := u'.kids[s];
    ItemsPair(u, s);
    ItemsPairMerged(u, s, m);
    var a, b := Left(u.keys, u.kids, s), Tail(u.keys[s + 1..], u.kids[s + 2..]);
    var xs, ys := Mid(l, k, r), Items(m);
    if l.Leaf? {
      MergeLeafReads(l, k, r, m);
      assert [l.id, r.id] == [] + [l.id, r.id] + [] && [l.id] == [] + [l.id] + [];
      MarksConcat(a + xs, b); MarksConcat(a, xs); MarksConcat(a + ys, b); MarksConcat(a, ys);
      FoldedAround(Marks(a + xs + b), Marks(a + ys + b), Marks(a), Marks(xs), Marks(ys), Marks(b), l.id, r.id);
    } else {
      Join(l.id, l.keys, l.kids, k, r.keys, r.kids);
      RefitsSelf(xs);
    }
    hide Items, Tail, Marks, Entries, Ordered, Merge, Left, Mid;
    RefitsInContext(a, xs, ys, b);
  }

  lemma MergeLeafReads(l: Tree, k: Key, r: Tree, m: Tree)
    requires l.Leaf? && r.Leaf? && Sized(l) && Sized(r) && m == Leaf(l.id, l.keys + r.keys, l.vals + r.vals)
    ensures Refits(Mid(l, k, r), Items(m))
    ensures Marks(Mid(l, k, r)) == [l.id, r.id] && Marks(Items(m)) == [l.id]
  {
    hide Entries, Ordered, Within, Tail;
    var ns := LeafItems(r.keys, r.vals);
    assert Items(m) == Items(l) + ns;
    assert Mid(l, k, r) == Items(l) + [Sep(k)] + [Mark(r.id)] + ns;
    RefitsMerge(Mid(l, k, r), Items(m), Items(l), k, [Mark(r.id)], ns);
    LeafMarks(l);
    NoMarks(ns);
  }

  /** Folding two siblings, one of them short and the other minimal, gives a well
      filled node; the parent loses one key and one page leaves the tree. */
  lemma MergeKeeps(u: Tree, h: nat, lo: nat, s: nat, i: nat)
    requires (i == s || i == s + 1) && Parent(u, h, lo, i) && s < |u.keys| && lo > 0
    requires |u.kids[s].keys| + |u.kids[s + 1].keys| < 2 * MIN_KEYS
    ensures CanRepair(u, s)
    ensures var u' := Merge(u, s); var l, r := u.kids[s], u.kids[s + 1];
      && u'.id == u.id && Ok(u', h, lo - 1) && Rereads(u, u')
      && Pages(u) == Pages(u') + multiset{r.id}
      && (h == 1 ==> Folded(Marks(Items(u)), l.id, r.id, Marks(Items(u'))))
      && (h > 1 ==> Marks(Items(u)) == Marks(Items(u')))
  {
    MergeOk(u, h, lo, s, i);
    MergeReads(u, s);
    MergePages(u, s);
  }

  lemma {:induction false} NoMarks(xs: seq<Item>)
    requires forall i | 0 <= i < |xs| :: !xs[i].Mark?
    ensures Marks(xs) == []
  {
    if xs != [] {
      NoMarks(xs[1..]);
    }
  }

  lemma LeafMarks(t: Tree)
    requires t.Leaf? && Sized(t)
    ensures Marks(Items(t)) == [t.id]
  {
    NoMarks(LeafItems(t.keys, t.vals));
    assert Items(t)[1..] == LeafItems(t.keys, t.vals);
  }

  /** A repair below a node of the tree is a repair of the tree: the contents stay
      the same and order survives. */
  lemma RepairInTree(t: Tree, h: nat, lo: nat, path: seq<nat>, i: nat, u': Tree)
    requires OkBut(t, h, lo, path + [i]) && IsPath(t, path)
    requires Rereads(At(t, path), u')
    ensures var t' := Replace(t, path, u');
      && Entries(Items(t')) == Entries(Items(t))
      && (Ordered(Items(t)) ==> Ordered(Items(t')))
  {
    var u, t' := At(t, path), Replace(t, path, u');
    var a, xs, ys, b :| Items(u) == a + xs + b && Items(u') == a + ys + b && Refits(xs, ys);
    var p, q := ItemsBefore(t, path), ItemsAfter(t, path);
    ItemsReplace(t, h, lo, path, i, u');
    ItemsReplace(t, h, lo, path, i, u);
    ReplaceSame(t, path);
    Regroup(p, a, xs, b, q);
    Regroup(p, a, ys, b, q);
    RefitsInContext(p + a, xs, ys, b + q);
  }

  /** The leaves of the tree change only where the repair is. */
  lemma MarksInTree(t: Tree, h: nat, lo: nat, path: seq<nat>, i: nat, u': Tree)
    requires OkBut(t, h, lo, path + [i]) && IsPath(t, path)
    ensures var t' := Replace(t, path, u');
      exists p, q ::
        && Marks(Items(t)) == p + Marks(Items(At(t, path))) + q
        && Marks(Items(t')) == p + Marks(Items(u')) + q
  {
    var u, t' := At(t, path), Replace(t, path, u');
    var p, q := ItemsBefore(t, path), ItemsAfter(t, path);
    ItemsReplace(t, h, lo, path, i, u');
    ItemsReplace(t, h, lo, path, i, u);
    ReplaceSame(t, path);
    MarksConcat(p + Items(u), q); MarksConcat(p, Items(u));
    MarksConcat(p + Items(u'), q); MarksConcat(p, Items(u'));
    assert Marks(Items(t)) == Marks(p) + Marks(Items(u)) + Marks(q);
    assert Marks(Items(t')) == Marks(p) + Marks(Items(u')) + Marks(q);
  }

  lemma FoldedAround(ms: seq<PageId>, ms': seq<PageId>, p: seq<PageId>, us: seq<PageId>, us': seq<PageId>, q: seq<PageId>,
                     l: PageId, r: PageId)
    requires ms == p + us + q && ms' == p + us' + q && Folded(us, l, r, us')
    ensures Folded(ms, l, r, ms')
  {
    var m, n :| us == m + [l, r] + n && us' == m + [l] + n;
    assert ms == (p + m) + [l, r] + (n + q);
    assert ms' == (p + m) + [l] + (n + q);
  }

  lemma FoldedInTree(t: Tree, h: nat, lo: nat, path: seq<nat>, i: nat, u': Tree, l: PageId, r: PageId)
    requires OkBut(t, h, lo, path + [i]) && IsPath(t, path)
    requires Folded(Marks(Items(At(t, path))), l, r, Marks(Items(u')))
    ensures Folded(Marks(Items(t)), l, r, Marks(Items(Replace(t, path, u'))))
  {
    MarksInTree(t, h, lo, path, i, u');
    var ms, ms', us, us' := Marks(Items(t)), Marks(Items(Replace(t, path, u'))), Marks(Items(At(t, path))), Marks(Items(u'));
    hide *;
    var p, q :| ms == p + us + q && ms' == p + us' + q;
    FoldedAround(ms, ms', p, us, us', q, l, r);
  }
}
