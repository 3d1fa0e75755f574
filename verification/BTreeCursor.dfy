/** The upward loop over a cursor: the node at the bottom of the cursor is short;
    each level is repaired by borrowing, which ends the repair, or by folding,
    which may leave the parent short. */
module BTreeCursor {
  import opened BTreeModel
  import opened BTreeRepair
  import opened BTreePages
  import opened BTreeNode
  import opened BTreeMoves
  import opened BTreeUnderflow

  /** The pages `s'` hold `t'`, which differs from `t` only below the node at `path`;
      pages that left the tree have been freed, no other page has. */
  ghost predicate Repaired(s: map<PageId, View>, s': map<PageId, View>, t: Tree, t': Tree, h: nat,
                           freed: set<PageId>, freed': set<PageId>)
  {
    && Holds(s', t', h) && Upgraded(t, t') && s'.Keys == s.Keys
    && Pages(t') <= Pages(t)
    && (forall x | x in s && x !in Pages(t) :: s'[x] == s[x])
    && (forall x :: x in freed' <==> x in freed || (x in Pages(t) && x !in Pages(t')))
  }

  /** Inner pages outside a repaired subtree keep their bytes. */
  ghost predicate InnerKept(s: map<PageId, View>, s': map<PageId, View>, u: Tree) {
    forall x | x in s && x in s' && x !in Pages(u) && s[x].level > 0 :: s'[x] == s[x]
  }

  lemma Siblings(s: map<PageId, View>, t: Tree, h: nat, lo: nat, path: seq<nat>, i: nat)
    requires Holds(s, t, h) && OkBut(t, h, lo, path + [i]) && IsPath(t, path) && |path| < h
    ensures var u := At(t, path);
      && u.Inner? && |u.kids| == |u.keys| + 1 && u.id in s && Shows(s[u.id], u, h - |path|)
      && forall j | 0 <= j < |u.kids| :: u.kids[j].id in s && Shows(s[u.kids[j].id], u.kids[j], h - |path| - 1)
  {
    AroundShort(s, t, h, lo, path, i);
  }

  lemma PagesInside(u: Tree, j: nat)
    requires u.Inner? && j < |u.kids|
    ensures u.id in Pages(u) && u.kids[j].id in Pages(u)
  {
    KidPages(u.kids, j);
    PagesOf(u);
    PagesOf(u.kids[j]);
    hide Pages, ForestPages;
    assert u.kids[j].id in Pages(u.kids[j]);
  }

  lemma LeftRepaired(s: map<PageId, View>, t: Tree, h: nat, lo: nat, path: seq<nat>, i: nat, freed: set<PageId>)
    requires Holds(s, t, h) && OkBut(t, h, lo, path + [i]) && i > 0
    requires IsPath(t, path) && |path| < h && Parent(At(t, path), h - |path|, if path == [] then lo else MIN_KEYS, i)
    requires var u := At(t, path); |u.kids[i - 1].keys| > MIN_KEYS && |u.kids[i].keys| < MIN_KEYS
    ensures var u := At(t, path); var l, n := u.kids[i - 1].id, u.kids[i].id;
      && {u.id, l, n} <= s.Keys && Neighbours(s[u.id], i - 1, s[l], s[n]) && |s[l].keys| == |u.kids[i - 1].keys|
      && CanRepair(u, i - 1)
      && var tr := LeftGives(s[u.id], i - 1, s[l], s[n]);
         var s', t' := s[l := tr.left][n := tr.right][u.id := tr.parent], Replace(t, path, BorrowLeft(u, i - 1));
         Repaired(s, s', t, t', h, freed, freed) && Ok(t', h, lo) && InnerKept(s, s', u)
  {
    hide OkBut, Ok, Pages, Holds, Upgraded, IsPath, LeftGives, BorrowLeft, Replace, Neighbours;
    var u := At(t, path);
    PathPages(t, path);
    PagesInside(u, i - 1);
    PagesInside(u, i);
    RepairFromLeft(s, t, h, lo, path, i);
  }

  lemma RightRepaired(s: map<PageId, View>, t: Tree, h: nat, lo: nat, path: seq<nat>, i: nat, freed: set<PageId>)
    requires Holds(s, t, h) && OkBut(t, h, lo, path + [i])
    requires IsPath(t, path) && |path| < h && Parent(At(t, path), h - |path|, if path == [] then lo else MIN_KEYS, i)
    requires var u := At(t, path); i + 1 < |u.kids| && |u.kids[i + 1].keys| > MIN_KEYS && |u.kids[i].keys| < MIN_KEYS
    ensures var u := At(t, path); var n, r := u.kids[i].id, u.kids[i + 1].id;
      && {u.id, n, r} <= s.Keys && Neighbours(s[u.id], i, s[n], s[r]) && |s[r].keys| == |u.kids[i + 1].keys|
      && CanRepair(u, i)
      && var tr := RightGives(s[u.id], i, s[n], s[r]);
         var s', t' := s[n := tr.left][r := tr.right][u.id := tr.parent], Replace(t, path, BorrowRight(u, i));
         Repaired(s, s', t, t', h, freed, freed) && Ok(t', h, lo) && InnerKept(s, s', u)
  {
    hide OkBut, Ok, Pages, Holds, Upgraded, IsPath, RightGives, BorrowRight, Replace, Neighbours;
    var u := At(t, path);
    PathPages(t, path);
    PagesInside(u, i);
    PagesInside(u, i + 1);
    RepairFromRight(s, t, h, lo, path, i);
  }

  lemma FoldRepaired(s: map<PageId, View>, t: Tree, h: nat, lo: nat, path: seq<nat>, i: nat, sep: nat, freed: set<PageId>)
    requires Holds(s, t, h) && OkBut(t, h, lo, path + [i]) && (i == sep || i == sep + 1) && lo > 0
    requires IsPath(t, path) && |path| < h && Parent(At(t, path), h - |path|, if path == [] then lo else MIN_KEYS, i)
    requires var u := At(t, path); sep + 1 < |u.kids| && |u.kids[sep].keys| + |u.kids[sep + 1].keys| < 2 * MIN_KEYS
    ensures var u := At(t, path); var l, r := u.kids[sep].id, u.kids[sep + 1].id;
      && {u.id, l, r} <= s.Keys && Neighbours(s[u.id], sep, s[l], s[r]) && u.id != r
      && (s[r].level == 0 && s[r].next != 0 ==> s[r].next in s)
      && CanRepair(u, sep)
      && var s', t' := FoldedPages(s, u.id, sep, l, r), Replace(t, path, Merge(u, sep));
         && Repaired(s, s', t, t', h, freed, freed + {r}) && InnerKept(s, s', u)
         && (if path == [] then Ok(t', h, lo - 1) else OkBut(t', h, lo, path))
  {
    hide OkBut, Ok, Pages, Holds, Upgraded, IsPath, Merge, Replace, Neighbours, FoldedPages, Stored, Distinct, SameNode;
    var u := At(t, path);
    var l, r := u.kids[sep].id, u.kids[sep + 1].id;
    RepairByFold(s, t, h, lo, path, i, sep);
    var t' := Replace(t, path, Merge(u, sep));
    PathPages(t, path);
    PagesInside(u, sep);
    PagesInside(u, sep + 1);
    AroundShort(s, t, h, lo, path, i);
    KidAway(u, sep + 1, sep + 1);
    NextInTree(s, t, h, lo, path, i, sep);
    FoldLocal(s, u.id, sep, l, r);
    HoldsDistinct(s, t, h);
    FreedExactly(Pages(t), Pages(t'), r, freed);
  }

  lemma HoldsDistinct(s: map<PageId, View>, t: Tree, h: nat)
    requires Holds(s, t, h)
    ensures Distinct(Pages(t))
  {
  }

  lemma FoldLocal(s: map<PageId, View>, u: PageId, sep: nat, l: PageId, r: PageId)
    requires {u, l, r} <= s.Keys && Neighbours(s[u], sep, s[l], s[r])
    requires s[r].level == 0 && s[r].next != 0 ==> s[r].next in s
    ensures var s' := FoldedPages(s, u, sep, l, r);
      && s'.Keys == s.Keys
      && forall x | x in s && x !in {u, l, r} && !(s[r].level == 0 && s[r].next != 0 && x == s[r].next) :: s'[x] == s[x]
  {
  }

  lemma FreedExactly(ps: multiset<PageId>, ps': multiset<PageId>, r: PageId, freed: set<PageId>)
    requires Distinct(ps) && ps == ps' + multiset{r}
    ensures ps' <= ps
    ensures forall x :: x in freed + {r} <==> x in freed || (x in ps && x !in ps')
  {
    assert ps[r] == ps'[r] + 1;
    assert r in ps;
  }

  /** The link of a leaf leads to a leaf of the tree. */
  lemma NextInTree(s: map<PageId, View>, t: Tree, h: nat, lo: nat, path: seq<nat>, i: nat, sep: nat)
    requires Holds(s, t, h) && OkBut(t, h, lo, path + [i]) && (i == sep || i == sep + 1) && lo > 0
    requires IsPath(t, path) && |path| < h && Parent(At(t, path), h - |path|, if path == [] then lo else MIN_KEYS, i)
    requires var u := At(t, path); sep + 1 < |u.kids| && |u.kids[sep].keys| + |u.kids[sep + 1].keys| < 2 * MIN_KEYS
    ensures var r := At(t, path).kids[sep + 1].id;
      r in s && (s[r].level == 0 && s[r].next != 0 ==> s[r].next in Pages(t) && s[r].next in s && s[s[r].next].level == 0)
  {
    var u, hu := At(t, path), h - |path|;
    var l, r := u.kids[sep].id, u.kids[sep + 1].id;
    Siblings(s, t, h, lo, path, i);
    if hu == 1 {
      MergeKeeps(u, hu, if path == [] then lo else MIN_KEYS, sep, i);
      FoldedInTree(t, h, lo, path, i, Merge(u, sep), l, r);
      NextInChain(s, t, h, l, r, Marks(Items(Replace(t, path, Merge(u, sep)))));
    }
  }

  lemma NextInChain(s: map<PageId, View>, t: Tree, h: nat, l: PageId, r: PageId, ms': seq<PageId>)
    requires Holds(s, t, h) && Folded(Marks(Items(t)), l, r, ms')
    ensures r in s && (s[r].next != 0 ==> s[r].next in Pages(t) && s[r].next in s && s[s[r].next].level == 0)
  {
    LeafLevels(s, t, h);
    MarksDistinct(t);
    var ms := Marks(Items(t));
    hide Marks, Items, Stored, Pages;
    var p, q :| ms == p + [l, r] + q && ms' == p + [l] + q;
    assert ms[|p| + 1] == r && Linked(s, ms, |p| + 1);
    if s[r].next != 0 {
      assert ms[|p| + 2] == s[r].next && ms[|p| + 2] in ms;
    }
  }

  /** One level of repair took the pages from `s` to `s'` and the subtree at `path`
      to `u'`; it ended the repair, or left the parent possibly short. */
  ghost predicate Outcome(s: map<PageId, View>, s': map<PageId, View>, freed: set<PageId>, freed': set<PageId>,
                          t: Tree, h: nat, lo: nat, path: seq<nat>, u': Tree, done: bool)
    requires IsPath(t, path) && lo > 0
  {
    var t' := Replace(t, path, u');
    && u'.id == At(t, path).id
    && Repaired(s, s', t, t', h, freed, freed')
    && InnerKept(s, s', At(t, path))
    && if done then Ok(t', h, lo) else if path == [] then Ok(t', h, lo - 1) else OkBut(t', h, lo, path)
  }

  /** The setting of one level: `node` is kid `pos` of `parent` and is short. */
  ghost predicate Setting(s: map<PageId, View>, t: Tree, h: nat, lo: nat, path: seq<nat>, pos: nat) {
    && Holds(s, t, h) && OkBut(t, h, lo, path + [pos]) && lo > 0
    && IsPath(t, path) && |path| < h && Parent(At(t, path), h - |path|, if path == [] then lo else MIN_KEYS, pos)
    && |At(t, path).kids[pos].keys| < MIN_KEYS
  }

  lemma LeftOutcome(s: map<PageId, View>, freed: set<PageId>, t: Tree, h: nat, lo: nat, path: seq<nat>, pos: nat,
                    u: PageId, l: PageId, n: PageId)
    requires Setting(s, t, h, lo, path, pos) && Kids(t, path, pos, u, l, n) && pos > 0
    requires {u, l, n} <= s.Keys && |s[l].keys| > MIN_KEYS
    ensures Neighbours(s[u], pos - 1, s[l], s[n])
    ensures CanRepair(At(t, path), pos - 1) && |At(t, path).kids[pos - 1].keys| > 0
    ensures var tr := LeftGives(s[u], pos - 1, s[l], s[n]);
      Outcome(s, s[l := tr.left][n := tr.right][u := tr.parent], freed, freed, t, h, lo, path, BorrowLeft(At(t, path), pos - 1), true)
  {
    Siblings(s, t, h, lo, path, pos);
    hide OkBut, Ok, Pages, Holds, IsPath, Replace, Repaired, InnerKept;
    LeftRepaired(s, t, h, lo, path, pos, freed);
  }

  /** `l` and `r` are the neighbours at the short kid `pos` of page `u`, in this order. */
  ghost predicate Kids(t: Tree, path: seq<nat>, pos: nat, u: PageId, l: PageId, r: PageId)
    requires IsPath(t, path)
  {
    var x := At(t, path);
    x.Inner? && x.id == u && 0 < pos < |x.kids| && x.kids[pos - 1].id == l && x.kids[pos].id == r
  }

  lemma RightOutcome(s: map<PageId, View>, freed: set<PageId>, t: Tree, h: nat, lo: nat, path: seq<nat>, pos: nat,
                     u: PageId, n: PageId, r: PageId)
    requires Setting(s, t, h, lo, path, pos) && Kids(t, path, pos + 1, u, n, r)
    requires {u, n, r} <= s.Keys && |s[r].keys| > MIN_KEYS
    ensures Neighbours(s[u], pos, s[n], s[r])
    ensures CanRepair(At(t, path), pos) && |At(t, path).kids[pos + 1].keys| > 1
    ensures var tr := RightGives(s[u], pos, s[n], s[r]);
      Outcome(s, s[n := tr.left][r := tr.right][u := tr.parent], freed, freed, t, h, lo, path, BorrowRight(At(t, path), pos), true)
  {
    Siblings(s, t, h, lo, path, pos);
    hide OkBut, Ok, Pages, Holds, IsPath, Replace, Repaired, InnerKept;
    RightRepaired(s, t, h, lo, path, pos, freed);
  }

  lemma FoldOutcome(s: map<PageId, View>, freed: set<PageId>, t: Tree, h: nat, lo: nat, path: seq<nat>, pos: nat, sep: nat,
                    u: PageId, l: PageId, r: PageId)
    requires Setting(s, t, h, lo, path, pos) && (pos == sep || pos == sep + 1) && Kids(t, path, sep + 1, u, l, r)
    requires {u, l, r} <= s.Keys && |s[l].keys| + |s[r].keys| < 2 * MIN_KEYS
    ensures Neighbours(s[u], sep, s[l], s[r]) && u != r
    ensures s[r].level == 0 && s[r].next != 0 ==> s[r].next in s
    ensures CanRepair(At(t, path), sep)
    ensures Outcome(s, FoldedPages(s, u, sep, l, r), freed, freed + {r}, t, h, lo, path, Merge(At(t, path), sep), false)
    ensures FoldedPages(s, u, sep, l, r)[u] == WithoutSep(s[u], sep)
  {
    Siblings(s, t, h, lo, path, pos);
    hide OkBut, Ok, Pages, Holds, IsPath, Replace, Repaired, InnerKept;
    FoldRepaired(s, t, h, lo, path, pos, sep, freed);
  }

  method BorrowFromLeft(store: PageStore, parent: Node, pos: nat, left: Node, node: Node,
                        ghost t: Tree, ghost h: nat, ghost lo: nat, ghost path: seq<nat>)
    returns (ghost u': Tree)
    requires store.Valid() && parent.Valid() && left.Valid() && node.Valid()
    requires Apart(parent, left) && Apart(parent, node) && Apart(left, node)
    requires Setting(store.Views(), t, h, lo, path, pos) && Kids(t, path, pos, parent.id, left.id, node.id) && pos > 0
    requires IsPath(t, path)
    requires {parent.id, left.id, node.id} <= store.pages.Keys
    requires var s := store.Views(); parent.Shown() == s[parent.id] && left.Shown() == s[left.id] && node.Shown() == s[node.id]
    requires left.keyCount == |left.Shown().keys| > MIN_KEYS && 0 < left.keyCount && node.keyCount < MAX_KEYS
    modifies store`pages, parent.keys, left`keyCount, node`keyCount, node.keys, node.slots
    ensures store.Valid()
    ensures Outcome(old(store.Views()), store.Views(), store.freed, store.freed, t, h, lo, path, u', true)
    ensures parent.Valid() && parent.id in store.pages && parent.Shown() == store.Views()[parent.id]
  {
    hide *;
    LeftOutcome(store.Views(), store.freed, t, h, lo, path, pos, parent.id, left.id, node.id);
    u' := BorrowLeft(At(t, path), pos - 1);
    RedistributeFromLeft(store, parent, pos - 1, left, node);
  }

  method BorrowFromRight(store: PageStore, parent: Node, pos: nat, node: Node, right: Node,
                         ghost t: Tree, ghost h: nat, ghost lo: nat, ghost path: seq<nat>)
    returns (ghost u': Tree)
    requires store.Valid() && parent.Valid() && right.Valid() && node.Valid()
    requires Apart(parent, node) && Apart(parent, right) && Apart(node, right)
    requires Setting(store.Views(), t, h, lo, path, pos) && Kids(t, path, pos + 1, parent.id, node.id, right.id)
    requires IsPath(t, path)
    requires {parent.id, node.id, right.id} <= store.pages.Keys
    requires var s := store.Views(); parent.Shown() == s[parent.id] && node.Shown() == s[node.id] && right.Shown() == s[right.id]
    requires right.keyCount == |right.Shown().keys| > MIN_KEYS && 1 < right.keyCount && node.keyCount < MAX_KEYS
    modifies store`pages, parent.keys, node`keyCount, node.keys, node.slots, right`keyCount, right.keys, right.slots
    ensures store.Valid()
    ensures Outcome(old(store.Views()), store.Views(), store.freed, store.freed, t, h, lo, path, u', true)
    ensures parent.Valid() && parent.id in store.pages && parent.Shown() == store.Views()[parent.id]
  {
    hide *;
    RightOutcome(store.Views(), store.freed, t, h, lo, path, pos, parent.id, node.id, right.id);
    u' := BorrowRight(At(t, path), pos);
    RedistributeFromRight(store, parent, pos, node, right);
  }

  /** Folds `right` into `left`, one of which is the short kid `pos`, and frees it. */
  method FoldAndFree(store: PageStore, parent: Node, pos: nat, sep: nat, left: Node, right: Node,
                     ghost t: Tree, ghost h: nat, ghost lo: nat, ghost path: seq<nat>)
    returns (ghost u': Tree)
    requires store.Valid() && parent.Valid() && left.Valid() && right.Valid()
    requires Apart(parent, left) && Apart(parent, right) && Apart(left, right)
    requires Setting(store.Views(), t, h, lo, path, pos) && (pos == sep || pos == sep + 1)
    requires IsPath(t, path)
    requires Kids(t, path, sep + 1, parent.id, left.id, right.id)
    requires {parent.id, left.id, right.id} <= store.pages.Keys
    requires var s := store.Views(); parent.Shown() == s[parent.id] && left.Shown() == s[left.id] && right.Shown() == s[right.id]
    requires left.keyCount == |left.Shown().keys| && right.keyCount == |right.Shown().keys|
    requires left.keyCount + right.keyCount < 2 * MIN_KEYS == MAX_KEYS
    modifies store, parent`keyCount, parent.keys, parent.slots, left`keyCount, left`next, left.keys, left.slots
    ensures store.Valid() && parent.Valid()
    ensures Outcome(old(store.Views()), store.Views(), old(store.freed), store.freed, t, h, lo, path, u', false)
    ensures parent.id in store.pages && parent.Shown() == store.Views()[parent.id]
  {
    hide *;
    ghost var s := store.Views();
    ShownFields(right);
    FoldOutcome(s, store.freed, t, h, lo, path, pos, sep, parent.id, left.id, right.id);
    FoldedPagesIs(s, parent.id, sep, left.id, right.id);
    u' := Merge(At(t, path), sep);
    MergeNodes(store, parent, sep, left, right);
    store.Free(right.id);
  }

  lemma FoldedPagesIs(s: map<PageId, View>, u: PageId, sep: nat, l: PageId, r: PageId)
    requires {u, l, r} <= s.Keys && Neighbours(s[u], sep, s[l], s[r])
    ensures FoldedPages(s, u, sep, l, r) ==
      Relinked(s, s[r], l)[l := FoldIn(s[u], sep, s[l], s[r])][u := WithoutSep(s[u], sep)][r := ViewOf(ZERO_PAGE)]
  {
  }

  lemma ShortSetting(s: map<PageId, View>, t: Tree, h: nat, lo: nat, path: seq<nat>, pos: nat)
    requires Setting(s, t, h, lo, path, pos)
    ensures IsPath(t, path)
    ensures var u := At(t, path);
      && u.Inner? && pos < |u.kids| == |u.keys| + 1 && |u.keys| > 0
      && u.id in s && s[u.id].keys == u.keys && |s[u.id].slots| == |u.kids|
      && (forall j | 0 <= j < |u.kids| :: s[u.id].slots[j] == u.kids[j].id && u.kids[j].id in s)
      && |s[u.kids[pos].id].keys| < MIN_KEYS
      && (pos > 0 ==> Kids(t, path, pos, u.id, u.kids[pos - 1].id, u.kids[pos].id))
      && (pos + 1 < |u.kids| ==> Kids(t, path, pos + 1, u.id, u.kids[pos].id, u.kids[pos + 1].id))
  {
    Siblings(s, t, h, lo, path, pos);
  }

  /** One level. A short node always has a sibling: its parent has a key. */
  method RepairLevel(store: PageStore, parent: Node, pos: nat, node: Node,
                     ghost t: Tree, ghost h: nat, ghost lo: nat, ghost path: seq<nat>)
    returns (done: bool, ghost u': Tree)
    requires store.Valid() && parent.Valid() && node.Valid() && Apart(parent, node)
    requires Setting(store.Views(), t, h, lo, path, pos)
    requires IsPath(t, path)
    requires parent.id == At(t, path).id && node.id == At(t, path).kids[pos].id
    requires {parent.id, node.id} <= store.pages.Keys
    requires parent.Shown() == store.Views()[parent.id] && node.Shown() == store.Views()[node.id]
    modifies store, parent, parent.keys, parent.slots, node, node.keys, node.slots
    ensures store.Valid()
    ensures Outcome(old(store.Views()), store.Views(), old(store.freed), store.freed, t, h, lo, path, u', done)
    ensures parent.Valid() && parent.id in store.pages && parent.Shown() == store.Views()[parent.id]
  {
    hide Outcome, OkBut, Ok, Pages, Holds, Setting, Parent, At, Kids, IsPath, Node.Shown, Node.Valid, PageStore.Valid, PageStore.Views;
    ghost var s, u := store.Views(), At(t, path);
    ShortSetting(s, t, h, lo, path, pos);
    ShownFields(parent);
    ShownFields(node);
    var left: Node? := null;
    var right: Node? := null;
    if pos > 0 {
      left := store.Load(parent.slots[pos - 1]);
      ShownFields(left);
      if left.keyCount > MIN_KEYS {
        u' := BorrowFromLeft(store, parent, pos, left, node, t, h, lo, path);
        return true, u';
      }
    }
    if pos < parent.keyCount {
      right := store.Load(parent.slots[pos + 1]);
      ShownFields(right);
      if right.keyCount > MIN_KEYS {
        u' := BorrowFromRight(store, parent, pos, node, right, t, h, lo, path);
        return true, u';
      }
    }
    if left != null {
      u' := FoldAndFree(store, parent, pos, pos - 1, left, node, t, h, lo, path);
    } else {
      u' := FoldAndFree(store, parent, pos, pos, node, right, t, h, lo, path);
    }
    done := false;
  }

  // ------------------------------------------------------------- the cursor

  /** `ids` are the pages along `positions`, from the root down to `level`. */
  ghost predicate OnPath(s: map<PageId, View>, t: Tree, ids: seq<PageId>, positions: seq<nat>, level: nat) {
    && level < |ids| && level <= |positions|
    && forall j | 0 <= j <= level :: IsPath(t, positions[..j]) && ids[j] == At(t, positions[..j]).id && ids[j] in s
  }

  lemma {:induction false} AtAt(t: Tree, path: seq<nat>, j: nat)
    requires IsPath(t, path) && j <= |path|
    ensures IsPath(t, path[..j]) && IsPath(At(t, path[..j]), path[j..])
    ensures At(At(t, path[..j]), path[j..]) == At(t, path)
    decreases t
  {
    if j == 0 {
      assert path[0..] == path;
    } else {
      assert path[..j][1..] == path[1..][..j - 1] && path[1..][j - 1..] == path[j..];
      AtAt(t.kids[path[0]], path[1..], j - 1);
    }
  }

  lemma {:induction false} ReplaceAt(t: Tree, path: seq<nat>, u: Tree, j: nat)
    requires IsPath(t, path) && j <= |path| && u.id == At(t, path).id
    ensures IsPath(t, path[..j]) && IsPath(Replace(t, path, u), path[..j])
    ensures At(Replace(t, path, u), path[..j]).id == At(t, path[..j]).id
    decreases t
  {
    if j > 0 {
      assert path[..j][1..] == path[1..][..j - 1];
      ReplaceAt(t.kids[path[0]], path[1..], u, j - 1);
    }
  }

  /** An ancestor of a repaired subtree is an inner page outside it. */
  lemma Ancestor(s: map<PageId, View>, t: Tree, h: nat, path: seq<nat>, j: nat)
    requires Holds(s, t, h) && IsPath(t, path) && j < |path|
    ensures IsPath(t, path[..j])
    ensures var x := At(t, path[..j]).id; x in s && x !in Pages(At(t, path)) && s[x].level > 0
  {
    AtAt(t, path, j);
    var a := At(t, path[..j]);
    StoredAt(s, t, h, path[..j]);
    PathPages(t, path[..j]);
    DistinctPart(Pages(a), Pages(t));
    PathPages(a, path[j..]);
    assert path[j..] != [];
  }

  lemma PathKept(s: map<PageId, View>, s': map<PageId, View>, freed: set<PageId>, freed': set<PageId>,
                 t: Tree, h: nat, ids: seq<PageId>, positions: seq<nat>, level: nat, u': Tree, done: bool)
    requires Holds(s, t, h) && OnPath(s, t, ids, positions, level) && level > 0
    requires IsPath(t, positions[..level - 1])
    requires Outcome(s, s', freed, freed', t, h, 1, positions[..level - 1], u', done)
    ensures OnPath(s', Replace(t, positions[..level - 1], u'), ids, positions, level - 1)
    ensures forall j | 0 <= j < level - 1 :: ids[j] in s && s'[ids[j]] == s[ids[j]]
  {
    var path := positions[..level - 1];
    forall j | 0 <= j <= level - 1
      ensures IsPath(Replace(t, path, u'), positions[..j]) && ids[j] == At(Replace(t, path, u'), positions[..j]).id && ids[j] in s'
      ensures j < level - 1 ==> s'[ids[j]] == s[ids[j]]
    {
      assert path[..j] == positions[..j];
      ReplaceAt(t, path, u', j);
      if j < level - 1 {
        Ancestor(s, t, h, path, j);
      }
    }
  }

  lemma RepairedTwice(s0: map<PageId, View>, s1: map<PageId, View>, s2: map<PageId, View>, t0: Tree, t1: Tree, t2: Tree, h: nat,
                      f0: set<PageId>, f1: set<PageId>, f2: set<PageId>)
    requires Repaired(s0, s1, t0, t1, h, f0, f1) && Repaired(s1, s2, t1, t2, h, f1, f2)
    ensures Repaired(s0, s2, t0, t2, h, f0, f2)
  {
    hide Holds, Items, Pages, Entries, Ordered;
  }

  lemma RepairedNothing(s: map<PageId, View>, t: Tree, h: nat, f: set<PageId>)
    requires Holds(s, t, h)
    ensures Repaired(s, s, t, t, h, f, f)
  {
    hide Holds, Items, Pages, Entries, Ordered;
  }

  /** The node at `level` is the only one that may be short, and the cursor's copies
      are the pages from the root down to it. */
  ghost predicate CursorAt(s: map<PageId, View>, t: Tree, h: nat, ids: seq<PageId>, positions: seq<nat>, level: nat) {
    && Holds(s, t, h) && OnPath(s, t, ids, positions, level)
    && if level == 0 then Ok(t, h, 0) else OkBut(t, h, 1, positions[..level])
  }

  lemma SettingHere(s: map<PageId, View>, t: Tree, h: nat, ids: seq<PageId>, positions: seq<nat>, level: nat)
    requires CursorAt(s, t, h, ids, positions, level) && level > 0
    ensures var path, pos := positions[..level - 1], positions[level - 1];
      && IsPath(t, path) && path + [pos] == positions[..level] && ids[level - 1] in s && ids[level] in s
      && At(t, path).Inner? && pos < |At(t, path).kids|
      && ids[level - 1] == At(t, path).id && ids[level] == At(t, path).kids[pos].id
      && (|s[ids[level]].keys| < MIN_KEYS ==> Setting(s, t, h, 1, path, pos))
      && (|s[ids[level]].keys| >= MIN_KEYS ==> Ok(t, h, 1))
  {
    hide Holds, Ok, OkBut, IsPath, Stored;
    var path, pos := positions[..level - 1], positions[level - 1];
    assert path + [pos] == positions[..level];
    AroundShort(s, t, h, 1, path, pos);
    AtParent(t, path, pos);
    Siblings(s, t, h, 1, path, pos);
    assert IsPath(t, positions[..level - 1]) && ids[level - 1] == At(t, positions[..level - 1]).id;
    assert IsPath(t, positions[..level]) && ids[level] == At(t, positions[..level]).id;
    if |s[ids[level]].keys| >= MIN_KEYS {
      NotShort(t, h, 1, path, pos);
    }
  }

  lemma {:induction false} NotShort(t: Tree, h: nat, lo: nat, path: seq<nat>, i: nat)
    requires OkBut(t, h, lo, path + [i]) && IsPath(t, path) && At(t, path).Inner? && i < |At(t, path).kids|
    requires |At(t, path).kids[i].keys| >= MIN_KEYS
    ensures Ok(t, h, lo)
    decreases t
  {
    if path == [] {
      assert (path + [i])[1..] == [];
      assert Ok(t.kids[i], h - 1, MIN_KEYS);
    } else {
      assert (path + [i])[1..] == path[1..] + [i];
      NotShort(t.kids[path[0]], h - 1, MIN_KEYS, path[1..], i);
    }
  }

  lemma {:induction false} OkWeaker(t: Tree, h: nat, lo: nat, lo': nat)
    requires Ok(t, h, lo) && lo' <= lo
    ensures Ok(t, h, lo')
  {
  }

  ghost predicate Separate(nodes: seq<Node>) {
    forall i, j | 0 <= i < j < |nodes| :: Apart(nodes[i], nodes[j])
  }

  ghost predicate Loaded(store: PageStore, nodes: seq<Node>, ids: seq<PageId>, level: nat)
    reads store, nodes, set n | n in nodes :: n.keys, set n | n in nodes :: n.slots
    requires store.Valid() && level < |nodes|
  {
    forall j | 0 <= j <= level ::
      nodes[j].Valid() && j < |ids| && nodes[j].id == ids[j] && ids[j] in store.pages && nodes[j].Shown() == store.Views()[ids[j]]
  }

  /** One turn of the loop, at a short node. */
  method StepUp(store: PageStore, nodes: seq<Node>, positions: seq<nat>, level: nat,
                ghost ids: seq<PageId>, ghost t: Tree, ghost h: nat)
    returns (done: bool, ghost t': Tree)
    requires store.Valid() && 0 < level < |nodes| && level <= |positions| && Separate(nodes) && |nodes| == |ids|
    requires CursorAt(store.Views(), t, h, ids, positions, level)
    requires Loaded(store, nodes, ids, level)
    requires nodes[level].keyCount < MIN_KEYS
    modifies store, nodes, set n | n in nodes :: n.keys, set n | n in nodes :: n.slots
    ensures store.Valid()
    ensures Repaired(old(store.Views()), store.Views(), t, t', h, old(store.freed), store.freed)
    ensures done ==> Ok(t', h, 1)
    ensures !done ==> CursorAt(store.Views(), t', h, ids, positions, level - 1)
    ensures Loaded(store, nodes, ids, level - 1)
  {
    hide Repaired, CursorAt, Setting, Outcome, Ok, OkBut, IsPath, At, Replace, Pages, Node.Shown, Node.Valid, PageStore.Valid, PageStore.Views;
    ghost var s, f, path := store.Views(), store.freed, positions[..level - 1];
    var node, parent := nodes[level], nodes[level - 1];
    SettingHere(s, t, h, ids, positions, level);
    ShownFields(node);
    assert Apart(parent, node);
    ghost var u';
    label before:
    done, u' := RepairLevel(store, parent, positions[level - 1], node, t, h, 1, path);
    LevelDone(s, store.Views(), f, store.freed, t, h, ids, positions, level, u', done);
    t' := Replace(t, path, u');
    forall j | 0 <= j < level - 1 ensures nodes[j].Valid() && nodes[j].Shown() == old@before(nodes[j].Shown()) {
      assert Apart(nodes[j], node) && Apart(nodes[j], parent);
    }
  }

  /** Repairs the short node at the bottom of the cursor and whatever becomes short
      above it. Contents, order, depth and leaf chain stay; every node but the root
      ends up with MIN_KEYS to MAX_KEYS keys; exactly the pages that left the tree
      are freed. */
  method HandleUnderflow(store: PageStore, nodes: seq<Node>, positions: seq<nat>, start: nat,
                         ghost ids: seq<PageId>, ghost t0: Tree, ghost h: nat)
    returns (ghost t: Tree)
    requires store.Valid() && start < |nodes| && Separate(nodes) && |nodes| == |ids|
    requires CursorAt(store.Views(), t0, h, ids, positions, start)
    requires Loaded(store, nodes, ids, start)
    modifies store, nodes, set n | n in nodes :: n.keys, set n | n in nodes :: n.slots
    ensures store.Valid()
    ensures Repaired(old(store.Views()), store.Views(), t0, t, h, old(store.freed), store.freed)
    ensures Ok(t, h, 0) && Loaded(store, nodes, ids, 0)
  {
    hide Holds, Repaired, CursorAt, Ok, Node.Shown, Node.Valid, PageStore.Valid, PageStore.Views;
    ghost var s0, f0 := store.Views(), store.freed;
    t := t0;
    CursorHolds(s0, t, h, ids, positions, start);
    RepairedNothing(s0, t, h, f0);
    var level := start;
    while level > 0
      invariant 0 <= level <= start && level <= |positions|
      invariant store.Valid() && CursorAt(store.Views(), t, h, ids, positions, level)
      invariant Repaired(s0, store.Views(), t0, t, h, f0, store.freed)
      invariant Loaded(store, nodes, ids, level)
    {
      ghost var s, f := store.Views(), store.freed;
      if nodes[level].keyCount >= MIN_KEYS {
        ShownFields(nodes[level]);
        SettingHere(s, t, h, ids, positions, level);
        OkWeaker(t, h, 1, 0);
        return;
      }
      var done;
      ghost var t';
      done, t' := StepUp(store, nodes, positions, level, ids, t, h);
      RepairedTwice(s0, s, store.Views(), t0, t, t', h, f0, f, store.freed);
      t := t';
      if done {
        OkWeaker(t, h, 1, 0);
        return;
      }
      level := level - 1;
    }
    CursorHolds(store.Views(), t, h, ids, positions, 0);
  }

  lemma CursorHolds(s: map<PageId, View>, t: Tree, h: nat, ids: seq<PageId>, positions: seq<nat>, level: nat)
    requires CursorAt(s, t, h, ids, positions, level)
    ensures Holds(s, t, h) && level <= |positions| && (level == 0 ==> Ok(t, h, 0))
  {
  }

  lemma LevelDone(s: map<PageId, View>, s': map<PageId, View>, f: set<PageId>, f': set<PageId>, t: Tree, h: nat,
                  ids: seq<PageId>, positions: seq<nat>, level: nat, u': Tree, done: bool)
    requires CursorAt(s, t, h, ids, positions, level) && level > 0
    requires IsPath(t, positions[..level - 1])
    requires Outcome(s, s', f, f', t, h, 1, positions[..level - 1], u', done)
    ensures var t' := Replace(t, positions[..level - 1], u');
      && Repaired(s, s', t, t', h, f, f')
      && (done ==> Ok(t', h, 1))
      && (!done ==> CursorAt(s', t', h, ids, positions, level - 1))
    ensures forall j | 0 <= j < level - 1 :: ids[j] in s && ids[j] in s' && s'[ids[j]] == s[ids[j]]
  {
    PathKept(s, s', f, f', t, h, ids, positions, level, u', done);
  }

  /** An inner root left without keys has one child, which becomes the root; the old
      root page is freed. Afterwards the root, too, is as full as a root must be. */
  method CollapseRoot(store: PageStore, root: Node, ghost t: Tree, ghost h: nat)
    returns (rootId: PageId, ghost t': Tree, ghost h': nat)
    requires store.Valid() && root.Valid() && root.id == t.id && root.id in store.pages
    requires root.Shown() == store.Views()[root.id]
    requires Holds(store.Views(), t, h) && Ok(t, h, 0)
    modifies store
    ensures store.Valid() && rootId == t'.id
    ensures Holds(store.Views(), t', h') && Ok(t', h', if h' > 0 then 1 else 0)
    ensures Items(t') == Items(t) && Pages(t') <= Pages(t)
    ensures forall x :: x in store.freed <==> x in old(store.freed) || (x in Pages(t) && x !in Pages(t'))
  {
    hide Holds, Items, Pages, Ok;
    ghost var s := store.Views();
    ShownFields(root);
    RootShown(s, t, h);
    if root.level > 0 && root.keyCount == 0 {
      rootId, t', h' := root.slots[0], t.kids[0], h - 1;
      store.Free(root.id);
      RootGone(s, t, h, ViewOf(ZERO_PAGE));
      RootFreed(t.id, Pages(t), Pages(t'));
    } else {
      rootId, t', h' := root.id, t, h;
    }
  }

  lemma RootShown(s: map<PageId, View>, t: Tree, h: nat)
    requires Holds(s, t, h) && Ok(t, h, 0)
    ensures t.id in s && s[t.id].level == h && s[t.id].keys == t.keys
    ensures h > 0 ==> t.Inner? && |t.kids| == |t.keys| + 1 && s[t.id].slots == RootIds(t.kids)
    ensures |t.keys| > 0 ==> Ok(t, h, 1)
  {
  }

  lemma OnlyKid(t: Tree)
    requires t.Inner? && t.keys == [] && |t.kids| == 1
    ensures Items(t) == Items(t.kids[0]) && Pages(t) == multiset{t.id} + Pages(t.kids[0])
  {
    assert t.kids == [t.kids[0]];
    assert Items(t) == Items(t.kids[0]) + [];
    assert ForestPages(t.kids) == Pages(t.kids[0]) + ForestPages([]);
  }

  lemma RootGone(s: map<PageId, View>, t: Tree, h: nat, zero: View)
    requires Holds(s, t, h) && Ok(t, h, 0) && h > 0 && t.keys == []
    ensures t.Inner? && |t.kids| == 1
    ensures var k := t.kids[0];
      && Holds(s[t.id := zero], k, h - 1) && Ok(k, h - 1, if h - 1 > 0 then 1 else 0) && Items(k) == Items(t)
      && Pages(t) == multiset{t.id} + Pages(k) && t.id !in Pages(k)
  {
    hide Items, Marks, Pages, Ok, Stored, Chain, Distinct;
    EmptyRoot(s, t, h);
    var k := t.kids[0];
    OnlyKid(t);
    KidAway(t, 0, 0);
    DistinctPart(Pages(k), Pages(t));
    AllStored(s, k, h - 1);
    ZeroedElsewhere(s, t.id, zero, k);
    StoredFrame(s, s[t.id := zero], k, h - 1);
    MarksDistinct(k);
    ChainFrame(s, s[t.id := zero], Marks(Items(k)));
    OkWeaker(k, h - 1, MIN_KEYS, if h - 1 > 0 then 1 else 0);
  }

  lemma RootFreed(id: PageId, pages: multiset<PageId>, rest: multiset<PageId>)
    requires pages == multiset{id} + rest && id !in rest
    ensures forall x :: x == id <==> x in pages && x !in rest
  {
  }

  lemma EmptyRoot(s: map<PageId, View>, t: Tree, h: nat)
    requires Stored(s, t, h) && Ok(t, h, 0) && h > 0 && t.keys == []
    ensures t.Inner? && |t.kids| == 1 && Stored(s, t.kids[0], h - 1) && Ok(t.kids[0], h - 1, MIN_KEYS)
  {
  }

  lemma ZeroedElsewhere(s: map<PageId, View>, id: PageId, zero: View, k: Tree)
    requires id !in Pages(k) && forall x | x in Pages(k) :: x in s
    ensures forall x | x in Pages(k) :: SameNode(s, s[id := zero], x) && x in s[id := zero] && s[id := zero][x] == s[x]
  {
    hide Pages;
  }

  // ------------------------------------------------------- searching a node

  ghost predicate Ascending(keys: seq<Key>) { forall i, j | 0 <= i < j < |keys| :: keys[i] < keys[j] }

  /** The number of keys below `key`: where it is, or would be inserted. */
  function LowerBound(keys: seq<Key>, key: Key): (r: nat)
    ensures r <= |keys|
    ensures forall i | 0 <= i < r :: keys[i] < key
    ensures r < |keys| ==> key <= keys[r]
  {
    if keys == [] || key <= keys[0] then 0 else 1 + LowerBound(keys[1..], key)
  }

  lemma LowerBoundUnique(keys: seq<Key>, key: Key, r: nat)
    requires r <= |keys| && (forall i | 0 <= i < r :: keys[i] < key) && (r < |keys| ==> key <= keys[r])
    ensures r == LowerBound(keys, key)
  {
    assert !(LowerBound(keys, key) < r) && !(r < LowerBound(keys, key));
  }

  method SearchPosition(node: Node, key: Key) returns (pos: nat)
    requires node.Valid()
    ensures pos == LowerBound(node.Shown().keys, key)
  {
    ghost var keys := node.Shown().keys;
    assert keys[0..] == keys;
    for i := 0 to node.keyCount
      invariant LowerBound(keys, key) == i + LowerBound(keys[i..], key)
    {
      if key <= node.keys[i] {
        return i;
      }
      assert keys[i..][1..] == keys[i + 1..];
    }
    return node.keyCount;
  }

  /** The binary search agrees with the linear one on a node with ascending keys. */
  method SearchPositionBinary(node: Node, key: Key) returns (pos: nat)
    requires node.Valid() && Ascending(node.Shown().keys)
    ensures pos == LowerBound(node.Shown().keys, key)
  {
    ghost var keys := node.Shown().keys;
    var left, right := 0, node.keyCount - 1;
    pos := 0;
    while left <= right
      invariant 0 <= left <= right + 1 <= |keys|
      invariant left > right ==> pos == left
      invariant forall i | 0 <= i < left :: keys[i] < key
      invariant forall i | right < i < |keys| :: key < keys[i]
      decreases right - left + 1
    {
      var mid := (left + right) / 2;
      assert node.keys[mid] == keys[mid];
      if key < node.keys[mid] {
        right, pos := mid - 1, mid;
      } else if key > node.keys[mid] {
        left, pos := mid + 1, mid + 1;
      } else {
        LowerBoundUnique(keys, key, mid);
        return mid;
      }
    }
    LowerBoundUnique(keys, key, pos);
  }
}
