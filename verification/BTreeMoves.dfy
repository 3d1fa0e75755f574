/** The in-place repairs of a short node and what they do to the pages. */
module BTreeMoves {
  import opened BTreeModel
  import opened BTreeRepair
  import opened BTreePages
  import opened BTreeNode

  datatype Trio = Trio(parent: View, left: View, right: View)

  ghost predicate SizedView(v: View) { |v.slots| == SlotCount(v.level, |v.keys|) }

  /** Separator `s` of `p` stands between the neighbours `l` and `r`. */
  ghost predicate Neighbours(p: View, s: nat, l: View, r: View) {
    && p.level > 0 && s < |p.keys| && l.level == r.level
    && SizedView(p) && SizedView(l) && SizedView(r)
  }

  ghost function LeftGives(p: View, s: nat, l: View, n: View): Trio
    requires Neighbours(p, s, l, n) && |l.keys| > 0
  {
    var last := |l.keys| - 1;
    var p' := p.(keys := p.keys[s := l.keys[last]]);
    if n.level == 0 then
      Trio(p', l.(keys := l.keys[..last], slots := l.slots[..last]),
           n.(keys := [l.keys[last]] + n.keys, slots := [l.slots[last]] + n.slots))
    else
      Trio(p', l.(keys := l.keys[..last], slots := l.slots[..last + 1]),
           n.(keys := [p.keys[s]] + n.keys, slots := [l.slots[last + 1]] + n.slots))
  }

  ghost function RightGives(p: View, s: nat, n: View, r: View): Trio
    requires Neighbours(p, s, n, r) && |r.keys| > 1
  {
    if n.level == 0 then
      Trio(p.(keys := p.keys[s := r.keys[1]]),
           n.(keys := n.keys + [r.keys[0]], slots := n.slots + [r.slots[0]]),
           r.(keys := r.keys[1..], slots := r.slots[1..]))
    else
      Trio(p.(keys := p.keys[s := r.keys[0]]),
           n.(keys := n.keys + [p.keys[s]], slots := n.slots + [r.slots[0]]),
           r.(keys := r.keys[1..], slots := r.slots[1..]))
  }

  ghost function WithoutSep(p: View, s: nat): View
    requires p.level > 0 && SizedView(p) && s < |p.keys|
  {
    p.(keys := p.keys[..s] + p.keys[s + 1..], slots := p.slots[..s + 1] + p.slots[s + 2..])
  }

  /** A leaf without key `pos` and without the slot behind it, if there is one. */
  ghost function WithNextSlotGone(v: View, pos: nat): View
    requires v.level == 0 && SizedView(v) && pos < |v.keys|
  {
    v.(keys := v.keys[..pos] + v.keys[pos + 1..],
       slots := if pos + 1 < |v.keys| then v.slots[..pos + 1] + v.slots[pos + 2..] else v.slots[..pos])
  }

  ghost function FoldIn(p: View, s: nat, l: View, r: View): View
    requires Neighbours(p, s, l, r)
  {
    if l.level == 0 then l.(keys := l.keys + r.keys, slots := l.slots + r.slots, next := r.next)
    else l.(keys := l.keys + [p.keys[s]] + r.keys, slots := l.slots + r.slots)
  }

  // ------------------------------------------- what the moves mean for trees

  lemma LeftGivesShows(u: Tree, h: nat, s: nat, p: View, l: View, n: View)
    requires CanRepair(u, s) && h > 0 && |u.kids[s].keys| > 0 && (h == 1 <==> u.kids[s].Leaf?)
    requires Shows(p, u, h) && Shows(l, u.kids[s], h - 1) && Shows(n, u.kids[s + 1], h - 1)
    ensures Neighbours(p, s, l, n)
    ensures var t, u' := LeftGives(p, s, l, n), BorrowLeft(u, s);
      Shows(t.parent, u', h) && Shows(t.left, u'.kids[s], h - 1) && Shows(t.right, u'.kids[s + 1], h - 1)
  {
    hide RootIds;
    var l, n', u' := u.kids[s], u.kids[s + 1], BorrowLeft(u, s);
    SameRoots(u.kids, u'.kids);
    if l.Inner? {
      RootsSplit(l.kids[..|l.keys|], [l.kids[|l.keys|]]);
      RootsSplit([l.kids[|l.keys|]], n'.kids);
      assert l.kids == l.kids[..|l.keys|] + [l.kids[|l.keys|]];
    }
  }

  lemma SameRoots(ks: seq<Tree>, ks': seq<Tree>)
    requires |ks'| == |ks| && forall i | 0 <= i < |ks| :: ks'[i].id == ks[i].id
    ensures RootIds(ks') == RootIds(ks) && |RootIds(ks)| == |ks|
  {
  }

  lemma RootsSplit(a: seq<Tree>, b: seq<Tree>)
    ensures RootIds(a + b) == RootIds(a) + RootIds(b) && |RootIds(a)| == |a| && |RootIds(b)| == |b|
    ensures |b| == 1 ==> RootIds(b) == [b[0].id]
    ensures |a| == 1 ==> RootIds(a) == [a[0].id]
  {
  }

  lemma RightGivesShows(u: Tree, h: nat, s: nat, p: View, n: View, r: View)
    requires CanRepair(u, s) && h > 0 && |u.kids[s + 1].keys| > 1 && (h == 1 <==> u.kids[s].Leaf?)
    requires Shows(p, u, h) && Shows(n, u.kids[s], h - 1) && Shows(r, u.kids[s + 1], h - 1)
    ensures Neighbours(p, s, n, r)
    ensures var t, u' := RightGives(p, s, n, r), BorrowRight(u, s);
      Shows(t.parent, u', h) && Shows(t.left, u'.kids[s], h - 1) && Shows(t.right, u'.kids[s + 1], h - 1)
  {
    hide RootIds;
    var n', r', u' := u.kids[s], u.kids[s + 1], BorrowRight(u, s);
    SameRoots(u.kids, u'.kids);
    if r'.Inner? {
      RootsSplit(n'.kids, [r'.kids[0]]);
      RootsSplit([r'.kids[0]], r'.kids[1..]);
      assert r'.kids == [r'.kids[0]] + r'.kids[1..];
    }
  }

  /** A rotation changes no link. */
  lemma LeftGivesLinks(p: View, s: nat, l: View, n: View)
    requires Neighbours(p, s, l, n) && |l.keys| > 0
    ensures var t := LeftGives(p, s, l, n);
      && t.left.next == l.next && t.left.prev == l.prev && t.right.next == n.next && t.right.prev == n.prev
      && t.parent.next == p.next && t.parent.prev == p.prev
  {
  }

  lemma RightGivesLinks(p: View, s: nat, n: View, r: View)
    requires Neighbours(p, s, n, r) && |r.keys| > 1
    ensures var t := RightGives(p, s, n, r);
      && t.left.next == n.next && t.left.prev == n.prev && t.right.next == r.next && t.right.prev == r.prev
      && t.parent.next == p.next && t.parent.prev == p.prev
  {
  }

  lemma FoldInShows(u: Tree, h: nat, s: nat, p: View, l: View, r: View)
    requires CanRepair(u, s) && h > 0 && (h == 1 <==> u.kids[s].Leaf?)
    requires Shows(p, u, h) && Shows(l, u.kids[s], h - 1) && Shows(r, u.kids[s + 1], h - 1)
    ensures Neighbours(p, s, l, r)
    ensures var u' := Merge(u, s);
      Shows(WithoutSep(p, s), u', h) && Shows(FoldIn(p, s, l, r), u'.kids[s], h - 1)
  {
    hide RootIds;
    var l', r', u' := u.kids[s], u.kids[s + 1], Merge(u, s);
    RootsWithout(u.kids, s, u'.kids[s]);
    if l'.Inner? {
      RootsSplit(l'.kids, r'.kids);
    }
  }

  lemma RootsWithout(ks: seq<Tree>, s: nat, m: Tree)
    requires s + 1 < |ks| && m.id == ks[s].id
    ensures RootIds(ks[..s] + [m] + ks[s + 2..]) == RootIds(ks)[..s + 1] + RootIds(ks)[s + 2..] && |RootIds(ks)| == |ks|
  {
  }

  // ------------------------------------------------------ one node in place

  method PushFront(n: Node, key: Key, slot: PageId)
    requires n.Valid() && n.keyCount < MAX_KEYS
    modifies n`keyCount, n.keys, n.slots
    ensures n.Valid()
    ensures n.Shown() == old(n.Shown()).(keys := [key] + old(n.Shown().keys), slots := [slot] + old(n.Shown().slots))
  {
    ghost var k, sc := n.keyCount, SlotCount(n.level, n.keyCount);
    ShiftUp(n.keys, n.keyCount);
    ShiftUp(n.slots, SlotCount(n.level, n.keyCount));
    n.keys[0] := key;
    n.slots[0] := slot;
    n.keyCount := n.keyCount + 1;
    assert n.keys[..k + 1] == [key] + old(n.keys[..])[..k];
    assert n.slots[..sc + 1] == [slot] + old(n.slots[..])[..sc];
  }

  method PopFront(n: Node)
    requires n.Valid() && n.keyCount > 0
    modifies n`keyCount, n.keys, n.slots
    ensures n.Valid()
    ensures n.Shown() == old(n.Shown()).(keys := old(n.Shown().keys[1..]), slots := old(n.Shown().slots[1..]))
  {
    ghost var k, sc := n.keyCount, SlotCount(n.level, n.keyCount);
    ShiftDown(n.keys, 0, n.keyCount - 1);
    ShiftDown(n.slots, 0, SlotCount(n.level, n.keyCount) - 1);
    n.keyCount := n.keyCount - 1;
    assert n.keys[..k - 1] == old(n.keys[..])[1..k];
    assert n.slots[..sc - 1] == old(n.slots[..])[1..sc];
  }

  /** Removes key `pos` and, when there is one, slot `pos + 1`: of an inner node the
      separator and the child to its right, of a leaf the slot of the next key. */
  method RemoveAt(n: Node, pos: nat)
    requires n.Valid() && pos < n.keyCount
    modifies n`keyCount, n.keys, n.slots
    ensures n.Valid()
    ensures n.Shown() == if n.level > 0 then WithoutSep(old(n.Shown()), pos) else WithNextSlotGone(old(n.Shown()), pos)
  {
    ghost var k, keys, slots, v := n.keyCount, n.keys[..], n.slots[..], n.Shown();
    ShiftDown(n.keys, pos, n.keyCount - 1);
    ShiftDown(n.slots, pos + 1, n.keyCount);
    n.keyCount := n.keyCount - 1;
    RemovedView(v, keys, n.keys[..], slots, n.slots[..], pos, k);
    hide WithoutSep, WithNextSlotGone;
    assert n.keys[..k - 1] == n.keys[..][..k - 1];
    assert n.slots[..SlotCount(n.level, k - 1)] == n.slots[..][..SlotCount(n.level, k - 1)];
  }

  /** A node of `k` keys in its arrays before and after both shifts. */
  lemma RemovedView(v: View, keys: seq<Key>, keys': seq<Key>, slots: seq<PageId>, slots': seq<PageId>, pos: nat, k: nat)
    requires |keys| == MAX_KEYS && |slots| == MAX_KEYS + 1 && pos < k <= MAX_KEYS
    requires v.keys == keys[..k] && v.slots == slots[..SlotCount(v.level, k)]
    requires keys' == keys[..pos] + keys[pos + 1..k] + keys[k - 1..] && slots' == slots[..pos + 1] + slots[pos + 2..k + 1] + slots[k..]
    ensures SizedView(v) && |keys'| == MAX_KEYS && |slots'| == MAX_KEYS + 1
    ensures v.(keys := keys'[..k - 1], slots := slots'[..SlotCount(v.level, k - 1)])
      == if v.level > 0 then WithoutSep(v, pos) else WithNextSlotGone(v, pos)
  {
    ShiftedStart(keys, keys', pos, k - 1, k - 1);
    ShiftedStart(slots, slots', pos + 1, k, SlotCount(v.level, k - 1));
  }

  /** The first `m` elements after a shift, in terms of the first `m + 1` before it. */
  lemma ShiftedStart(s: seq<nat>, r: seq<nat>, lo: nat, hi: nat, m: nat)
    requires lo <= hi < |s| && m <= hi && r == s[..lo] + s[lo + 1..hi + 1] + s[hi..]
    ensures |r| == |s| && r[..m] == if lo <= m then s[..m + 1][..lo] + s[..m + 1][lo + 1..] else s[..m + 1][..m]
  {
    if lo <= m {
      var e := s[..m + 1][..lo] + s[..m + 1][lo + 1..];
      forall i | 0 <= i < m
        ensures r[i] == e[i]
      {
        assert i < lo ==> r[i] == s[i] == e[i];
        assert i >= lo ==> r[i] == s[lo + 1..hi + 1][i - lo] == s[i + 1] == e[i];
      }
      assert r[..m] == e;
    } else {
      assert r[..m] == s[..m] == s[..m + 1][..m];
    }
  }

  // ------------------------------------------------------------ the repairs

  method TakeFromLeft(parent: Node, sep: nat, left: Node, node: Node)
    requires parent.Valid() && left.Valid() && node.Valid()
    requires Apart(parent, left) && Apart(parent, node) && Apart(left, node)
    requires Neighbours(parent.Shown(), sep, left.Shown(), node.Shown())
    requires 0 < left.keyCount && node.keyCount < MAX_KEYS
    modifies parent.keys, left`keyCount, node`keyCount, node.keys, node.slots
    ensures parent.Valid() && left.Valid() && node.Valid()
    ensures Trio(parent.Shown(), left.Shown(), node.Shown()) ==
            old(LeftGives(parent.Shown(), sep, left.Shown(), node.Shown()))
  {
    ghost var p, l := parent.Shown(), left.Shown();
    var last := left.keyCount - 1;
    if node.level == 0 {
      PushFront(node, left.keys[last], left.slots[last]);
      left.keyCount := left.keyCount - 1;
      assert node.keys[0] == node.Shown().keys[0];
      parent.keys[sep] := node.keys[0];
    } else {
      PushFront(node, parent.keys[sep], left.slots[last + 1]);
      parent.keys[sep] := left.keys[last];
      left.keyCount := left.keyCount - 1;
    }
    assert parent.keys[..parent.keyCount] == p.keys[sep := l.keys[last]];
    assert left.keys[..last] == l.keys[..last];
    assert left.slots[..SlotCount(left.level, last)] == l.slots[..SlotCount(left.level, last)];
  }

  method RedistributeFromLeft(store: PageStore, parent: Node, sep: nat, left: Node, node: Node)
    requires store.Valid() && parent.Valid() && left.Valid() && node.Valid()
    requires Apart(parent, left) && Apart(parent, node) && Apart(left, node)
    requires {parent.id, left.id, node.id} <= store.pages.Keys
    requires Neighbours(parent.Shown(), sep, left.Shown(), node.Shown())
    requires 0 < left.keyCount && node.keyCount < MAX_KEYS
    modifies store`pages, parent.keys, left`keyCount, node`keyCount, node.keys, node.slots
    ensures store.Valid() && store.pages.Keys == old(store.pages.Keys)
    ensures parent.Valid() && parent.Shown() == store.Views()[parent.id]
    ensures var t := old(LeftGives(parent.Shown(), sep, left.Shown(), node.Shown()));
      store.Views() == old(store.Views())[left.id := t.left][node.id := t.right][parent.id := t.parent]
  {
    ghost var t := LeftGives(parent.Shown(), sep, left.Shown(), node.Shown());
    TakeFromLeft(parent, sep, left, node);
    hide LeftGives, Neighbours;
    store.Store(left);
    store.Store(node);
    store.Store(parent);
  }

  method AppendLast(n: Node, key: Key, slot: PageId)
    requires n.Valid() && n.keyCount < MAX_KEYS
    modifies n`keyCount, n.keys, n.slots
    ensures n.Valid()
    ensures n.Shown() == old(n.Shown()).(keys := old(n.Shown().keys) + [key], slots := old(n.Shown().slots) + [slot])
  {
    ghost var v := n.Shown();
    n.keys[n.keyCount] := key;
    n.slots[SlotCount(n.level, n.keyCount)] := slot;
    n.keyCount := n.keyCount + 1;
    assert n.keys[..n.keyCount] == v.keys + [key];
    assert n.slots[..SlotCount(n.level, n.keyCount)] == v.slots + [slot];
  }

  method TakeFromRight(parent: Node, sep: nat, node: Node, right: Node)
    requires parent.Valid() && node.Valid() && right.Valid()
    requires Apart(parent, node) && Apart(parent, right) && Apart(node, right)
    requires Neighbours(parent.Shown(), sep, node.Shown(), right.Shown())
    requires 1 < right.keyCount && node.keyCount < MAX_KEYS
    modifies parent.keys, node`keyCount, node.keys, node.slots, right`keyCount, right.keys, right.slots
    ensures parent.Valid() && node.Valid() && right.Valid()
    ensures Trio(parent.Shown(), node.Shown(), right.Shown()) ==
            old(RightGives(parent.Shown(), sep, node.Shown(), right.Shown()))
  {
    ghost var p, r := parent.Shown(), right.Shown();
    if node.level == 0 {
      AppendLast(node, right.keys[0], right.slots[0]);
      PopFront(right);
      assert right.keys[0] == right.Shown().keys[0];
      parent.keys[sep] := right.keys[0];
      assert parent.keys[..parent.keyCount] == p.keys[sep := r.keys[1]];
    } else {
      AppendLast(node, parent.keys[sep], right.slots[0]);
      parent.keys[sep] := right.keys[0];
      assert parent.keys[..parent.keyCount] == p.keys[sep := r.keys[0]];
      PopFront(right);
    }
  }

  method RedistributeFromRight(store: PageStore, parent: Node, sep: nat, node: Node, right: Node)
    requires store.Valid() && parent.Valid() && node.Valid() && right.Valid()
    requires Apart(parent, node) && Apart(parent, right) && Apart(node, right)
    requires {parent.id, node.id, right.id} <= store.pages.Keys
    requires Neighbours(parent.Shown(), sep, node.Shown(), right.Shown())
    requires 1 < right.keyCount && node.keyCount < MAX_KEYS
    modifies store`pages, parent.keys, node`keyCount, node.keys, node.slots, right`keyCount, right.keys, right.slots
    ensures store.Valid() && store.pages.Keys == old(store.pages.Keys)
    ensures parent.Valid() && parent.Shown() == store.Views()[parent.id]
    ensures var t := old(RightGives(parent.Shown(), sep, node.Shown(), right.Shown()));
      store.Views() == old(store.Views())[node.id := t.left][right.id := t.right][parent.id := t.parent]
  {
    TakeFromRight(parent, sep, node, right);
    hide RightGives, Neighbours;
    store.Store(node);
    store.Store(right);
    store.Store(parent);
  }

  /** Appends the contents of leaf `right` to leaf `left`, which takes over its link. */
  method AbsorbLeaf(left: Node, right: Node)
    requires left.Valid() && right.Valid() && Apart(left, right)
    requires left.level == 0 && right.level == 0 && left.keyCount + right.keyCount <= MAX_KEYS
    modifies left`keyCount, left`next, left.keys, left.slots
    ensures left.Valid()
    ensures var l, r := old(left.Shown()), old(right.Shown());
      left.Shown() == l.(keys := l.keys + r.keys, slots := l.slots + r.slots, next := r.next)
  {
    ghost var l, r := left.Shown(), right.Shown();
    var base := left.keyCount;
    CopyIn(left.keys, base, right.keys, right.keyCount);
    CopyIn(left.slots, base, right.slots, right.keyCount);
    left.keyCount := base + right.keyCount;
    left.next := right.next;
    assert left.keys[..left.keyCount] == l.keys + r.keys;
    assert left.slots[..left.keyCount] == l.slots + r.slots;
  }

  /** The separator drops down between the contents of two inner nodes. */
  method AbsorbInner(left: Node, key: Key, right: Node)
    requires left.Valid() && right.Valid() && Apart(left, right)
    requires left.level > 0 && right.level > 0 && left.keyCount + right.keyCount < MAX_KEYS
    modifies left`keyCount, left.keys, left.slots
    ensures left.Valid()
    ensures var l, r := old(left.Shown()), old(right.Shown());
      left.Shown() == l.(keys := l.keys + [key] + r.keys, slots := l.slots + r.slots)
  {
    ghost var l, r := left.Shown(), right.Shown();
    var base := left.keyCount;
    left.keys[base] := key;
    CopyIn(left.keys, base + 1, right.keys, right.keyCount);
    CopyIn(left.slots, base + 1, right.slots, right.keyCount + 1);
    left.keyCount := base + right.keyCount + 1;
    assert left.keys[..left.keyCount] == l.keys + [key] + r.keys;
    assert left.slots[..left.keyCount + 1] == l.slots + r.slots;
  }

  ghost function Relinked(s: map<PageId, View>, r: View, l: PageId): map<PageId, View> {
    if r.level == 0 && r.next != 0 && r.next in s then s[r.next := s[r.next].(prev := l)] else s
  }

  method Relink(store: PageStore, left: Node, right: Node)
    requires store.Valid() && right.Valid() && left.level == right.level
    requires right.level == 0 && right.next != 0 ==> right.next in store.pages
    modifies store`pages
    ensures store.Valid() && store.pages.Keys == old(store.pages.Keys)
    ensures store.Views() == Relinked(old(store.Views()), right.Shown(), left.id)
  {
    if left.level == 0 && right.next != 0 {
      var nextNode := store.Load(right.next);
      ghost var v := nextNode.Shown();
      nextNode.prev := left.id;
      assert nextNode.Shown() == v.(prev := left.id);
      store.Store(nextNode);
    }
  }

  /** The in-memory part of a merge. */
  method FoldParent(parent: Node, sep: nat, left: Node, right: Node)
    requires parent.Valid() && left.Valid() && right.Valid()
    requires Apart(parent, left) && Apart(parent, right) && Apart(left, right)
    requires Neighbours(parent.Shown(), sep, left.Shown(), right.Shown())
    requires left.keyCount + right.keyCount < MAX_KEYS
    modifies parent`keyCount, parent.keys, parent.slots, left`keyCount, left`next, left.keys, left.slots
    ensures parent.Valid() && left.Valid() && right.Valid() && right.Shown() == old(right.Shown())
    ensures parent.Shown() == WithoutSep(old(parent.Shown()), sep)
    ensures left.Shown() == FoldIn(old(parent.Shown()), sep, old(left.Shown()), old(right.Shown()))
  {
    if left.level == 0 {
      AbsorbLeaf(left, right);
    } else {
      AbsorbInner(left, parent.keys[sep], right);
    }
    RemoveAt(parent, sep);
  }

  method MergeNodes(store: PageStore, parent: Node, sep: nat, left: Node, right: Node)
    requires store.Valid() && parent.Valid() && left.Valid() && right.Valid()
    requires Apart(parent, left) && Apart(parent, right) && Apart(left, right)
    requires {parent.id, left.id} <= store.pages.Keys
    requires right.level == 0 && right.next != 0 ==> right.next in store.pages
    requires Neighbours(parent.Shown(), sep, left.Shown(), right.Shown())
    requires left.keyCount + right.keyCount < MAX_KEYS
    modifies store`pages, parent`keyCount, parent.keys, parent.slots, left`keyCount, left`next, left.keys, left.slots
    ensures store.Valid() && parent.Valid() && left.Valid() && right.Valid()
    ensures store.pages.Keys == old(store.pages.Keys)
    ensures var p, l, r := old(parent.Shown()), old(left.Shown()), old(right.Shown());
      && parent.Shown() == WithoutSep(p, sep) && left.Shown() == FoldIn(p, sep, l, r)
      && store.Views() == Relinked(old(store.Views()), r, left.id)
                          [left.id := left.Shown()][parent.id := parent.Shown()]
  {
    hide FoldIn, PageStore.Views, PageStore.Valid, WithoutSep, Node.Valid, Node.Shown;
    ShownFields(left);
    ShownFields(right);
    FoldParent(parent, sep, left, right);
    Relink(store, left, right);
    store.Store(left);
    store.Store(parent);
  }
}
