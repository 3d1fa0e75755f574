/** Repairing an underflow along a cursor path, level by level up to the root. */
module BTreeUnderflow {
  import opened BTreeModel
  import opened BTreeRepair
  import opened BTreePages
  import opened BTreeNode
  import opened BTreeMoves

  /** The pages `s` hold exactly the tree `t` of height `h`: every node on a page of
      its own, and the leaves doubly linked in tree order. */
  ghost predicate Holds(s: map<PageId, View>, t: Tree, h: nat) {
    && Stored(s, t, h)
    && Distinct(Pages(t)) && 0 !in Pages(t)
    && Chain(s, Marks(Items(t)))
  }

  // ------------------------------------------- pages away from a repair

  lemma GrandkidAway(u: Tree, i: nat, g: nat, j: nat)
    requires u.Inner? && i < |u.kids| && j < |u.kids| && u.kids[i].Inner? && g < |u.kids[i].kids|
    requires Distinct(Pages(u))
    ensures var x := u.kids[i].kids[g]; u.id !in Pages(x) && u.kids[j].id !in Pages(x)
  {
    var k, x := u.kids[i], u.kids[i].kids[g];
    KidPages(k.kids, g);
    PagesOf(k);
    PagesOf(u);
    KidPages(u.kids, i);
    PagesOf(u.kids[j]);
    if j < i { TwoKidsPages(u.kids, j, i); } else if i < j { TwoKidsPages(u.kids, i, j); }
    hide Pages, ForestPages;
    assert Pages(u)[u.id] >= 1 + Pages(x)[u.id];
    assert Pages(u)[u.kids[j].id] >= 1 + Pages(x)[u.kids[j].id];
    assert u.id in Pages(u) && u.kids[j].id in Pages(u);
  }

  lemma KidAway(u: Tree, i: nat, j: nat)
    requires u.Inner? && i < |u.kids| && j < |u.kids| && Distinct(Pages(u))
    ensures u.id !in Pages(u.kids[i]) && u.id != u.kids[j].id
    ensures i != j ==> u.kids[j].id !in Pages(u.kids[i])
  {
    PagesOf(u);
    KidPages(u.kids, i);
    KidPages(u.kids, j);
    if j < i { TwoKidsPages(u.kids, j, i); } else if i < j { TwoKidsPages(u.kids, i, j); }
    PagesOf(u.kids[j]);
    hide Pages, ForestPages;
    assert Pages(u)[u.id] >= 1 + Pages(u.kids[i])[u.id];
    assert Pages(u)[u.id] >= 1 + Pages(u.kids[j])[u.id];
    assert i != j ==> Pages(u)[u.kids[j].id] >= 1 + Pages(u.kids[i])[u.kids[j].id];
    assert u.id in Pages(u) && u.kids[j].id in Pages(u);
  }

  /** `s'` differs from `s` at no other node than the three of a repair. */
  ghost predicate ChangedAt(s: map<PageId, View>, s': map<PageId, View>, t: Tree, a: PageId, b: PageId, c: PageId) {
    forall x | x in Pages(t) && x != a && x != b && x != c :: SameNode(s, s', x)
  }

  ghost predicate MadeOf(k: Tree, a: Tree, b: Tree) {
    && k.Inner? && a.Inner? && b.Inner?
    && forall x | x in k.kids :: x in a.kids || x in b.kids
  }

  /** Kid `i` of `u` lost, won or kept some of its own kids. */
  lemma RebuiltKid(s: map<PageId, View>, s': map<PageId, View>, u: Tree, h: nat, i: nat, j: nat, k: Tree)
    requires u.Inner? && i < |u.kids| && j < |u.kids| && i != j && h > 0
    requires Stored(s, u, h) && Distinct(Pages(u))
    requires ChangedAt(s, s', u, u.id, u.kids[i].id, u.kids[j].id)
    requires k.id in s' && Shows(s'[k.id], k, h - 1)
    requires (k.Leaf? <==> h == 1) && (k.Inner? ==> MadeOf(k, u.kids[i], u.kids[j]))
    ensures Stored(s', k, h - 1)
  {
    hide Stored, Shows, Pages, ForestPages, Distinct;
    if k.Leaf? {
      StoredNode(s', k, h - 1);
    } else {
      forall g | 0 <= g < |k.kids| ensures Stored(s', k.kids[g], h - 2) {
        assert k.kids[g] in k.kids;
        var o := if k.kids[g] in u.kids[i].kids then i else j;
        var f :| 0 <= f < |u.kids[o].kids| && u.kids[o].kids[f] == k.kids[g];
        StoredKid(s, u, h, o);
        StoredKid(s, u.kids[o], h - 1, f);
        GrandkidAway(u, o, f, i);
        GrandkidAway(u, o, f, j);
        GrandkidPages(u, o, f);
        StoredFrame(s, s', k.kids[g], h - 2);
      }
      StoredNode(s', k, h - 1);
    }
  }

  lemma GrandkidPages(u: Tree, i: nat, g: nat)
    requires u.Inner? && i < |u.kids| && u.kids[i].Inner? && g < |u.kids[i].kids|
    ensures Pages(u.kids[i].kids[g]) <= Pages(u)
  {
    KidPages(u.kids, i);
    KidPages(u.kids[i].kids, g);
    PagesOf(u);
    PagesOf(u.kids[i]);
    hide Pages, ForestPages;
  }

  lemma KeptKid(s: map<PageId, View>, s': map<PageId, View>, u: Tree, h: nat, i: nat, j: nat, k: nat)
    requires u.Inner? && i < |u.kids| && j < |u.kids| && k < |u.kids| && k != i && k != j && h > 0
    requires Stored(s, u, h) && Distinct(Pages(u))
    requires ChangedAt(s, s', u, u.id, u.kids[i].id, u.kids[j].id)
    ensures Stored(s', u.kids[k], h - 1)
  {
    hide Pages, ForestPages, Distinct, Stored;
    KidAway(u, k, i);
    KidAway(u, k, j);
    KidPages(u.kids, k);
    PagesOf(u);
    StoredKid(s, u, h, k);
    StoredFrame(s, s', u.kids[k], h - 1);
  }

  lemma BorrowedKids(u: Tree, sep: nat, u': Tree)
    requires CanRepair(u, sep) && u.kids[sep].Inner?
    requires (|u.kids[sep].keys| > 0 && u' == BorrowLeft(u, sep)) || (|u.kids[sep + 1].keys| > 1 && u' == BorrowRight(u, sep))
    ensures MadeOf(u'.kids[sep], u.kids[sep], u.kids[sep + 1]) && MadeOf(u'.kids[sep + 1], u.kids[sep], u.kids[sep + 1])
  {
  }

  lemma BorrowStored(s: map<PageId, View>, s': map<PageId, View>, u: Tree, h: nat, sep: nat, u': Tree)
    requires CanRepair(u, sep) && h > 0 && (h == 1 <==> u.kids[sep].Leaf?)
    requires Stored(s, u, h) && Distinct(Pages(u))
    requires (|u.kids[sep].keys| > 0 && u' == BorrowLeft(u, sep)) || (|u.kids[sep + 1].keys| > 1 && u' == BorrowRight(u, sep))
    requires ChangedAt(s, s', u, u.id, u.kids[sep].id, u.kids[sep + 1].id)
    requires u.id in s' && Shows(s'[u.id], u', h)
    requires u.kids[sep].id in s' && Shows(s'[u.kids[sep].id], u'.kids[sep], h - 1)
    requires u.kids[sep + 1].id in s' && Shows(s'[u.kids[sep + 1].id], u'.kids[sep + 1], h - 1)
    ensures Stored(s', u', h)
  {
    hide Distinct, Pages, Shows, ChangedAt, Stored;
    if u.kids[sep].Inner? {
      BorrowedKids(u, sep, u');
    }
    var a, b := u'.kids[sep], u'.kids[sep + 1];
    assert u'.Inner? && u'.id == u.id && |u'.kids| == |u.kids| && a.id == u.kids[sep].id && b.id == u.kids[sep + 1].id;
    assert forall k | 0 <= k < |u'.kids| && k != sep && k != sep + 1 :: u'.kids[k] == u.kids[k];
    hide BorrowLeft, BorrowRight, Distinct, Pages, Shows, ChangedAt, CanRepair, MadeOf, Stored;
    RebuiltKid(s, s', u, h, sep, sep + 1, a);
    RebuiltKid(s, s', u, h, sep, sep + 1, b);
    forall k | 0 <= k < |u'.kids| ensures Stored(s', u'.kids[k], h - 1) {
      if k != sep && k != sep + 1 {
        KeptKid(s, s', u, h, sep, sep + 1, k);
      }
    }
    StoredNode(s', u', h);
  }

  lemma MergeStored(s: map<PageId, View>, s': map<PageId, View>, u: Tree, h: nat, sep: nat)
    requires CanRepair(u, sep) && h > 0 && (h == 1 <==> u.kids[sep].Leaf?)
    requires Stored(s, u, h) && Distinct(Pages(u))
    requires ChangedAt(s, s', u, u.id, u.kids[sep].id, u.kids[sep + 1].id)
    requires u.id in s' && Shows(s'[u.id], Merge(u, sep), h)
    requires u.kids[sep].id in s' && Shows(s'[u.kids[sep].id], Merge(u, sep).kids[sep], h - 1)
    ensures Stored(s', Merge(u, sep), h)
  {
    hide Distinct, Pages, Shows, ChangedAt, Stored;
    var u' := Merge(u, sep);
    var m := u'.kids[sep];
    assert u'.Inner? && u'.id == u.id && m.id == u.kids[sep].id;
    assert forall k | 0 <= k < sep :: u'.kids[k] == u.kids[k];
    assert forall k | sep < k < |u'.kids| :: u'.kids[k] == u.kids[k + 1];
    assert u.kids[sep].Inner? ==> MadeOf(m, u.kids[sep], u.kids[sep + 1]);
    hide Merge, MadeOf;
    RebuiltKid(s, s', u, h, sep, sep + 1, m);
    forall k | 0 <= k < |u'.kids| ensures Stored(s', u'.kids[k], h - 1) {
      if k < sep {
        KeptKid(s, s', u, h, sep, sep + 1, k);
      } else if k > sep {
        KeptKid(s, s', u, h, sep, sep + 1, k + 1);
      }
    }
    StoredNode(s', u', h);
  }

  // ------------------------------------------------- one repair of the tree

  /** Everything about the pages around a short node. */
  lemma AroundShort(s: map<PageId, View>, t: Tree, h: nat, lo: nat, path: seq<nat>, i: nat)
    requires Holds(s, t, h) && OkBut(t, h, lo, path + [i])
    ensures IsPath(t, path) && |path| < h
    ensures var u := At(t, path);
      && Stored(s, u, h - |path|) && Distinct(Pages(u)) && Pages(u) <= Pages(t)
      && Parent(u, h - |path|, if path == [] then lo else MIN_KEYS, i)
  {
    ShortChild(t, h, lo, path, i);
    StoredAt(s, t, h, path);
    PathPages(t, path);
    DistinctPart(Pages(At(t, path)), Pages(t));
  }

  ghost predicate Upgraded(t: Tree, t': Tree) {
    && t'.id == t.id
    && Entries(Items(t')) == Entries(Items(t))
    && (Ordered(Items(t)) ==> Ordered(Items(t')))
  }

  /** Borrowing repairs the tree for good. */
  lemma BorrowStep(s: map<PageId, View>, s': map<PageId, View>, t: Tree, h: nat, lo: nat, path: seq<nat>, i: nat, sep: nat, u': Tree)
    requires Holds(s, t, h) && OkBut(t, h, lo, path + [i]) && IsPath(t, path) && |path| < h && CanRepair(At(t, path), sep)
    requires var u := At(t, path);
      && Parent(u, h - |path|, if path == [] then lo else MIN_KEYS, i) && |u.kids[i].keys| < MIN_KEYS
      && ((i == sep + 1 && |u.kids[sep].keys| > MIN_KEYS && u' == BorrowLeft(u, sep))
          || (i == sep && |u.kids[sep + 1].keys| > MIN_KEYS && u' == BorrowRight(u, sep)))
      && Stored(s', u', h - |path|)
      && ChangedAt(s, s', t, u.id, u.kids[sep].id, u.kids[sep + 1].id)
    requires forall x | x in Pages(t) :: x in s && x in s' && s'[x].next == s[x].next && s'[x].prev == s[x].prev
    ensures var t' := Replace(t, path, u');
      Holds(s', t', h) && Ok(t', h, lo) && Upgraded(t, t') && Pages(t') == Pages(t)
  {
    hide Stored, OkBut, Ok, Items, Marks, Entries, Ordered, Pages, Chain, Distinct, BorrowLeft, BorrowRight, Parent, Rereads, IsPath;
    var u, lo', t' := At(t, path), if path == [] then lo else MIN_KEYS, Replace(t, path, u');
    if i == sep { BorrowRightKeeps(u, h - |path|, lo', sep); } else { BorrowLeftKeeps(u, h - |path|, lo', sep); }
    RepairInTree(t, h, lo, path, i, u');
    PagesReplace(t, path, u');
    SumBack(Pages(t), Pages(u));
    OutsideUnchanged(s, s', t, path, i, sep);
    StoredReplace(s, s', t, h, path, u');
    MarksSame(t, h, lo, path, i, u');
    MarksDistinct(t);
    ChainFrame(s, s', Marks(Items(t)));
    OkReplace(t, h, lo, path, i, u');
    ReplaceRoot(t, path, u');
  }

  lemma SumBack(a: multiset<PageId>, b: multiset<PageId>)
    requires b <= a
    ensures a - b + b == a
  {
  }

  lemma OutsideUnchanged(s: map<PageId, View>, s': map<PageId, View>, t: Tree, path: seq<nat>, i: nat, sep: nat)
    requires IsPath(t, path) && At(t, path).Inner? && sep + 1 < |At(t, path).kids|
    requires var u := At(t, path); ChangedAt(s, s', t, u.id, u.kids[sep].id, u.kids[sep + 1].id)
    ensures forall x | x in Pages(t) && x !in Pages(At(t, path)) :: SameNode(s, s', x)
  {
    hide Pages, ForestPages, IsPath, SameNode;
    var u := At(t, path);
    KidPages(u.kids, sep);
    KidPages(u.kids, sep + 1);
    PagesOf(u); PagesOf(u.kids[sep]); PagesOf(u.kids[sep + 1]);
    assert u.id in Pages(u) && u.kids[sep].id in Pages(u) && u.kids[sep + 1].id in Pages(u);
  }

  lemma MarksSame(t: Tree, h: nat, lo: nat, path: seq<nat>, i: nat, u': Tree)
    requires OkBut(t, h, lo, path + [i]) && IsPath(t, path) && Marks(Items(At(t, path))) == Marks(Items(u'))
    ensures Marks(Items(Replace(t, path, u'))) == Marks(Items(t))
  {
    MarksInTree(t, h, lo, path, i, u');
  }

  /** Folding repairs the short node; its parent may now be short. */
  lemma MergeStep(s: map<PageId, View>, s': map<PageId, View>, t: Tree, h: nat, lo: nat, path: seq<nat>, i: nat, sep: nat)
    requires Holds(s, t, h) && OkBut(t, h, lo, path + [i]) && IsPath(t, path) && |path| < h && CanRepair(At(t, path), sep) && lo > 0
    requires var u := At(t, path);
      && Parent(u, h - |path|, if path == [] then lo else MIN_KEYS, i) && (i == sep || i == sep + 1)
      && |u.kids[sep].keys| + |u.kids[sep + 1].keys| < 2 * MIN_KEYS
      && Stored(s', Merge(u, sep), h - |path|)
      && ChangedAt(s, s', t, u.id, u.kids[sep].id, u.kids[sep + 1].id)
      && var l, r := u.kids[sep].id, u.kids[sep + 1].id;
         l in s && r in s && forall m | m in Pages(t) && m != r ::
           if h - |path| == 1 then Unlinked(s, s', l, r, m)
           else m in s && m in s' && s'[m].next == s[m].next && s'[m].prev == s[m].prev
    ensures var u := At(t, path); var t' := Replace(t, path, Merge(u, sep));
      && Holds(s', t', h) && Upgraded(t, t')
      && Pages(t) == Pages(t') + multiset{u.kids[sep + 1].id}
      && (if path == [] then Ok(t', h, lo - 1) else OkBut(t', h, lo, path))
  {
    hide Stored, OkBut, Ok, Items, Marks, Entries, Ordered, Pages, Chain, Distinct, Merge, Parent, Rereads, IsPath, Unlinked, ForestPages;
    var u, lo' := At(t, path), if path == [] then lo else MIN_KEYS;
    var u', l, r := Merge(u, sep), u.kids[sep].id, u.kids[sep + 1].id;
    var t' := Replace(t, path, u');
    MergeKeeps(u, h - |path|, lo', sep, i);
    RepairInTree(t, h, lo, path, i, u');
    PagesLess(t, path, u', r);
    OutsideUnchanged(s, s', t, path, i, sep);
    StoredReplace(s, s', t, h, path, u');
    MergeChain(s, s', t, h, lo, path, i, u', l, r);
    OkReplace(t, h, lo, path, i, u');
    ReplaceRoot(t, path, u');
  }

  lemma PagesLess(t: Tree, path: seq<nat>, u': Tree, r: PageId)
    requires IsPath(t, path) && Distinct(Pages(t)) && 0 !in Pages(t)
    requires Pages(At(t, path)) == Pages(u') + multiset{r}
    ensures var t' := Replace(t, path, u');
      Pages(t) == Pages(t') + multiset{r} && Distinct(Pages(t')) && 0 !in Pages(t')
  {
    hide Pages, IsPath, Distinct, At, Replace;
    PagesReplace(t, path, u');
    SumLess(Pages(t), Pages(At(t, path)), Pages(u'), multiset{r});
    DistinctPart(Pages(Replace(t, path, u')), Pages(t));
  }

  lemma SumLess(t: multiset<PageId>, u: multiset<PageId>, u': multiset<PageId>, r: multiset<PageId>)
    requires u <= t && u == u' + r
    ensures t == (t - u + u') + r
  {
  }

  lemma MergeChain(s: map<PageId, View>, s': map<PageId, View>, t: Tree, h: nat, lo: nat, path: seq<nat>, i: nat,
                   u': Tree, l: PageId, r: PageId)
    requires Holds(s, t, h) && OkBut(t, h, lo, path + [i]) && IsPath(t, path) && |path| < h
    requires l in s && r in s && Pages(Replace(t, path, u')) + multiset{r} == Pages(t)
    requires forall m | m in Pages(t) && m != r ::
      if h - |path| == 1 then Unlinked(s, s', l, r, m)
      else m in s && m in s' && s'[m].next == s[m].next && s'[m].prev == s[m].prev
    requires if h - |path| == 1 then Folded(Marks(Items(At(t, path))), l, r, Marks(Items(u')))
             else Marks(Items(At(t, path))) == Marks(Items(u'))
    ensures Chain(s', Marks(Items(Replace(t, path, u'))))
  {
    hide Stored, OkBut, Items, Marks, Pages, Chain, Unlinked, IsPath, At, Replace;
    var t' := Replace(t, path, u');
    MarksDistinct(t);
    if h - |path| == 1 {
      FoldedInTree(t, h, lo, path, i, u', l, r);
      assert 0 !in Marks(Items(t));
      ChainFold(s, s', Marks(Items(t)), Marks(Items(t')), l, r);
    } else {
      MarksSame(t, h, lo, path, i, u');
      DistinctPart(Pages(t'), Pages(t));
      MarksDistinct(t');
      assert forall m | m in Marks(Items(t')) :: m in Pages(t') && m != r by {
        assert Pages(t)[r] == Pages(t')[r] + 1;
        assert r in Pages(t);
      }
      ChainFrame(s, s', Marks(Items(t)));
    }
  }

  /** The pages after borrowing from the left hold the repaired tree. */
  lemma RepairFromLeft(s: map<PageId, View>, t: Tree, h: nat, lo: nat, path: seq<nat>, i: nat)
    requires Holds(s, t, h) && OkBut(t, h, lo, path + [i]) && i > 0
    requires IsPath(t, path) && |path| < h && Parent(At(t, path), h - |path|, if path == [] then lo else MIN_KEYS, i)
    requires var u := At(t, path); |u.kids[i - 1].keys| > MIN_KEYS && |u.kids[i].keys| < MIN_KEYS
    ensures var u := At(t, path); var l, n := u.kids[i - 1].id, u.kids[i].id;
      && {u.id, l, n} <= s.Keys && Neighbours(s[u.id], i - 1, s[l], s[n]) && |s[l].keys| == |u.kids[i - 1].keys|
      && CanRepair(u, i - 1)
      && var tr := LeftGives(s[u.id], i - 1, s[l], s[n]);
         var s', t' := s[l := tr.left][n := tr.right][u.id := tr.parent], Replace(t, path, BorrowLeft(u, i - 1));
         Holds(s', t', h) && Ok(t', h, lo) && Upgraded(t, t') && Pages(t') == Pages(t)
  {
    hide OkBut, Ok, Holds, Pages, Distinct, IsPath, Stored, Replace, LeftGives, BorrowLeft, BorrowRight, Neighbours, Upgraded;
    var u, sep, hu := At(t, path), i - 1, h - |path|;
    var l, n := u.kids[sep].id, u.kids[i].id;
    AroundShort(s, t, h, lo, path, i);
    PairStored(s, u, hu, if path == [] then lo else MIN_KEYS, i, sep);
    LeftGivesShows(u, hu, sep, s[u.id], s[l], s[n]);
    var tr := LeftGives(s[u.id], sep, s[l], s[n]);
    var s', u' := s[l := tr.left][n := tr.right][u.id := tr.parent], BorrowLeft(u, sep);
    LeftGivesLinks(s[u.id], sep, s[l], s[n]);
    GiveEffect(s, u.id, l, n, tr);
    assert |s[l].keys| == |u.kids[sep].keys|;
    hide Parent, Shows, CanRepair;
    BorrowFits(s, s', t, h, lo, path, i, sep, u');
  }

  lemma PairStored(s: map<PageId, View>, u: Tree, h: nat, lo: nat, i: nat, sep: nat)
    requires Stored(s, u, h) && Distinct(Pages(u)) && Parent(u, h, lo, i) && sep + 1 < |u.kids|
    ensures var l, r := u.kids[sep], u.kids[sep + 1];
      && {u.id, l.id, r.id} <= s.Keys && Shows(s[u.id], u, h) && Shows(s[l.id], l, h - 1) && Shows(s[r.id], r, h - 1)
      && u.id != l.id && u.id != r.id && l.id != r.id
      && CanRepair(u, sep) && (h == 1 <==> l.Leaf?)
  {
    hide Pages, ForestPages, Distinct;
    StoredKid(s, u, h, sep);
    StoredKid(s, u, h, sep + 1);
    KidAway(u, sep, sep);
    KidAway(u, sep, sep + 1);
    PagesOf(u.kids[sep]);
  }

  lemma GiveEffect(s: map<PageId, View>, u: PageId, l: PageId, r: PageId, tr: Trio)
    requires {u, l, r} <= s.Keys && u != l && u != r && l != r
    requires tr.left.next == s[l].next && tr.left.prev == s[l].prev
    requires tr.right.next == s[r].next && tr.right.prev == s[r].prev
    requires tr.parent.next == s[u].next && tr.parent.prev == s[u].prev
    ensures var s' := s[l := tr.left][r := tr.right][u := tr.parent];
      && s'.Keys == s.Keys && s'[u] == tr.parent && s'[l] == tr.left && s'[r] == tr.right
      && (forall x | x in s && x != u && x != l && x != r :: s'[x] == s[x])
      && (forall x | x in s :: s'[x].next == s[x].next && s'[x].prev == s[x].prev)
  {
  }

  lemma BorrowFits(s: map<PageId, View>, s': map<PageId, View>, t: Tree, h: nat, lo: nat, path: seq<nat>, i: nat, sep: nat, u': Tree)
    requires Holds(s, t, h) && OkBut(t, h, lo, path + [i]) && IsPath(t, path) && |path| < h && CanRepair(At(t, path), sep)
    requires var u, hu := At(t, path), h - |path|; var l, r := u.kids[sep], u.kids[sep + 1];
      && Stored(s, u, hu) && Distinct(Pages(u)) && Pages(u) <= Pages(t)
      && Parent(u, hu, if path == [] then lo else MIN_KEYS, i) && |u.kids[i].keys| < MIN_KEYS && (hu == 1 <==> l.Leaf?)
      && ((i == sep + 1 && |l.keys| > MIN_KEYS && u' == BorrowLeft(u, sep))
          || (i == sep && |r.keys| > MIN_KEYS && u' == BorrowRight(u, sep)))
      && {u.id, l.id, r.id} <= s.Keys
      && s'.Keys == s.Keys && (forall x | x in s && x != u.id && x != l.id && x != r.id :: s'[x] == s[x])
      && (forall x | x in s :: s'[x].next == s[x].next && s'[x].prev == s[x].prev)
      && Shows(s'[u.id], u', hu) && Shows(s'[l.id], u'.kids[sep], hu - 1) && Shows(s'[r.id], u'.kids[sep + 1], hu - 1)
    ensures var t' := Replace(t, path, u');
      Holds(s', t', h) && Ok(t', h, lo) && Upgraded(t, t') && Pages(t') == Pages(t)
  {
    hide OkBut, Ok, Items, Marks, Entries, Ordered, Pages, Chain, Distinct, BorrowLeft, BorrowRight, Parent, IsPath, Shows;
    AllStored(s, t, h);
    hide Stored;
    var u := At(t, path);
    BorrowStored(s, s', u, h - |path|, sep, u');
    BorrowStep(s, s', t, h, lo, path, i, sep, u');
  }

  lemma {:induction false} AllStored(s: map<PageId, View>, t: Tree, h: nat)
    requires Stored(s, t, h)
    ensures forall x | x in Pages(t) :: x in s
    decreases t, 1
  {
    if t.Inner? {
      AllForestStored(s, t.kids, h - 1);
    }
  }

  lemma {:induction false} AllForestStored(s: map<PageId, View>, kids: seq<Tree>, h: nat)
    requires forall i | 0 <= i < |kids| :: Stored(s, kids[i], h)
    ensures forall x | x in ForestPages(kids) :: x in s
    decreases kids, 0
  {
    if kids != [] {
      AllStored(s, kids[0], h);
      AllForestStored(s, kids[1..], h);
    }
  }

  /** The pages after borrowing from the right hold the repaired tree. */
  lemma RepairFromRight(s: map<PageId, View>, t: Tree, h: nat, lo: nat, path: seq<nat>, i: nat)
    requires Holds(s, t, h) && OkBut(t, h, lo, path + [i])
    requires IsPath(t, path) && |path| < h && Parent(At(t, path), h - |path|, if path == [] then lo else MIN_KEYS, i)
    requires var u := At(t, path); i + 1 < |u.kids| && |u.kids[i + 1].keys| > MIN_KEYS && |u.kids[i].keys| < MIN_KEYS
    ensures var u := At(t, path); var n, r := u.kids[i].id, u.kids[i + 1].id;
      && {u.id, n, r} <= s.Keys && Neighbours(s[u.id], i, s[n], s[r]) && |s[r].keys| == |u.kids[i + 1].keys|
      && CanRepair(u, i)
      && var tr := RightGives(s[u.id], i, s[n], s[r]);
         var s', t' := s[n := tr.left][r := tr.right][u.id := tr.parent], Replace(t, path, BorrowRight(u, i));
         Holds(s', t', h) && Ok(t', h, lo) && Upgraded(t, t') && Pages(t') == Pages(t)
  {
    hide OkBut, Ok, Holds, Pages, Distinct, IsPath, Stored, Replace, RightGives, BorrowRight, BorrowLeft, Neighbours, Upgraded;
    var u, hu := At(t, path), h - |path|;
    var n, r := u.kids[i].id, u.kids[i + 1].id;
    AroundShort(s, t, h, lo, path, i);
    PairStored(s, u, hu, if path == [] then lo else MIN_KEYS, i, i);
    RightGivesShows(u, hu, i, s[u.id], s[n], s[r]);
    var tr := RightGives(s[u.id], i, s[n], s[r]);
    var s', u' := s[n := tr.left][r := tr.right][u.id := tr.parent], BorrowRight(u, i);
    RightGivesLinks(s[u.id], i, s[n], s[r]);
    GiveEffect(s, u.id, n, r, tr);
    assert |s[r].keys| == |u.kids[i + 1].keys|;
    hide Parent, Shows, CanRepair;
    BorrowFits(s, s', t, h, lo, path, i, i, u');
  }

  /** The pages after `r` has been folded into `l` and freed. */
  ghost function FoldedPages(s: map<PageId, View>, u: PageId, sep: nat, l: PageId, r: PageId): map<PageId, View>
    requires {u, l, r} <= s.Keys && Neighbours(s[u], sep, s[l], s[r])
  {
    Relinked(s, s[r], l)[l := FoldIn(s[u], sep, s[l], s[r])][u := WithoutSep(s[u], sep)][r := ViewOf(ZERO_PAGE)]
  }

  lemma FoldEffect(s: map<PageId, View>, u: PageId, sep: nat, l: PageId, r: PageId)
    requires {u, l, r} <= s.Keys && u != l && u != r && l != r && Neighbours(s[u], sep, s[l], s[r])
    requires s[r].level == 0 && s[r].next != 0 ==> s[r].next in s && s[r].next !in {u, l, r}
    ensures var s' := FoldedPages(s, u, sep, l, r);
      && s'.Keys == s.Keys
      && s'[u] == WithoutSep(s[u], sep) && s'[l] == FoldIn(s[u], sep, s[l], s[r])
      && (forall x | x in s && x !in {u, l, r} :: SameNode(s, s', x))
      && (s[r].level == 0 ==> forall m | m in s && m != r && m != 0 :: Unlinked(s, s', l, r, m))
      && (s[r].level > 0 ==> forall m | m in s && m != r :: s'[m].next == s[m].next && s'[m].prev == s[m].prev)
  {
  }

  lemma {:induction false} LeafLevels(s: map<PageId, View>, t: Tree, h: nat)
    requires Stored(s, t, h)
    ensures forall m | m in Marks(Items(t)) :: m in s && s[m].level == 0
    decreases t, 1
  {
    if t.Leaf? {
      if Sized(t) { LeafMarks(t); } else { assert Items(t) == [Mark(t.id)]; }
    } else if t.kids != [] {
      LeafLevels(s, t.kids[0], h - 1);
      TailLeafLevels(s, t.keys, t.kids[1..], h - 1);
      MarksConcat(Items(t.kids[0]), Tail(t.keys, t.kids[1..]));
    }
  }

  lemma {:induction false} TailLeafLevels(s: map<PageId, View>, keys: seq<Key>, kids: seq<Tree>, h: nat)
    requires forall i | 0 <= i < |kids| :: Stored(s, kids[i], h)
    ensures forall m | m in Marks(Tail(keys, kids)) :: m in s && s[m].level == 0
    decreases kids, 0
  {
    if keys != [] && kids != [] {
      LeafLevels(s, kids[0], h);
      TailLeafLevels(s, keys[1..], kids[1..], h);
      MarksConcat([Sep(keys[0])] + Items(kids[0]), Tail(keys[1..], kids[1..]));
      MarksConcat([Sep(keys[0])], Items(kids[0]));
      assert Marks([Sep(keys[0])]) == [];
    }
  }

  /** The leaf after a folded leaf is none of the pages being folded. */
  lemma NextLeaf(s: map<PageId, View>, t: Tree, h: nat, ms': seq<PageId>, u: PageId, l: PageId, r: PageId)
    requires Holds(s, t, h) && Folded(Marks(Items(t)), l, r, ms') && u in s && s[u].level > 0
    ensures r in s
    ensures s[r].next != 0 ==> s[r].next in s && s[r].next !in {u, l, r}
  {
    LeafLevels(s, t, h);
    MarksDistinct(t);
    var ms := Marks(Items(t));
    hide Marks, Items, Stored, Pages;
    var p, q :| ms == p + [l, r] + q && ms' == p + [l] + q;
    var n := |p|;
    assert ms[n] == l && ms[n + 1] == r && Linked(s, ms, n + 1);
    if s[r].next != 0 {
      assert ms[n + 2] == s[r].next && ms[n + 2] in ms;
    }
  }

  /** The pages after folding two neighbours hold the folded tree. */
  lemma RepairByFold(s: map<PageId, View>, t: Tree, h: nat, lo: nat, path: seq<nat>, i: nat, sep: nat)
    requires Holds(s, t, h) && OkBut(t, h, lo, path + [i]) && (i == sep || i == sep + 1) && lo > 0
    requires IsPath(t, path) && |path| < h && Parent(At(t, path), h - |path|, if path == [] then lo else MIN_KEYS, i)
    requires var u := At(t, path); sep + 1 < |u.kids| && |u.kids[sep].keys| + |u.kids[sep + 1].keys| < 2 * MIN_KEYS
    ensures var u := At(t, path); var l, r := u.kids[sep].id, u.kids[sep + 1].id;
      && {u.id, l, r} <= s.Keys && Neighbours(s[u.id], sep, s[l], s[r])
      && (s[r].level == 0 && s[r].next != 0 ==> s[r].next in s)
      && CanRepair(u, sep)
      && var s', t' := FoldedPages(s, u.id, sep, l, r), Replace(t, path, Merge(u, sep));
         && Holds(s', t', h) && Upgraded(t, t') && Pages(t) == Pages(t') + multiset{r}
         && (if path == [] then Ok(t', h, lo - 1) else OkBut(t', h, lo, path))
  {
    var u, hu := At(t, path), h - |path|;
    var l, r := u.kids[sep].id, u.kids[sep + 1].id;
    AroundShort(s, t, h, lo, path, i);
    PairStored(s, u, hu, if path == [] then lo else MIN_KEYS, i, sep);
    FoldInShows(u, hu, sep, s[u.id], s[l], s[r]);
    MergeKeeps(u, hu, if path == [] then lo else MIN_KEYS, sep, i);
    if hu == 1 {
      FoldedInTree(t, h, lo, path, i, Merge(u, sep), l, r);
      NextLeaf(s, t, h, Marks(Items(Replace(t, path, Merge(u, sep)))), u.id, l, r);
    }
    FoldEffect(s, u.id, sep, l, r);
    AllStored(s, t, h);
    var s' := FoldedPages(s, u.id, sep, l, r);
    hide OkBut, Ok, Parent, Neighbours, FoldIn, WithoutSep, Merge, Relinked, Pages, Items, Marks, Chain, Distinct, ViewOf, FoldedPages, Stored;
    assert ChangedAt(s, s', t, u.id, l, r);
    MergeStored(s, s', u, hu, sep);
    MergeStep(s, s', t, h, lo, path, i, sep);
  }
}
