/**
  The repairs after an erase, on page maps: from a tree with one node a key short to a good
  tree again.
 */
module Repairs {
  import opened PageReferences
  import opened Trees
  import opened Stores
  import opened Rebalancing
  import opened Inserting
  import opened Erasing

  /** The short node's parent as the pages have it. */
  function ParentOf(t: Tree, path: Path, x: Tree): Tree
    requires ValidPath(t, path) && path != []
  {
    WithKid(Sub(t, Up(path)), path[|path| - 1].idx, x)
  }

  lemma ParentFacts(s: Store, t: Tree, h: nat, m: Mode, path: Path, x: Tree, q: Tree)
    requires Short(s, t, h, m, path, x) && q == ParentOf(t, path, x)
    ensures var t1 := Replace(t, path, x);
            && ValidPath(t1, Up(path)) && Sub(t1, Up(path)) == q && q.Node? && t1.id == t.id
            && Represents(s, q) && q.id in s.inners && q.id !in s.leaves
            && s.inners[q.id].keys == q.keys && |s.inners[q.id].children| == |q.kids| == |q.keys| + 1
            && path[|path| - 1].page == q.id && path[|path| - 1].idx < |q.kids|
            && 1 <= |q.keys| && SizeOk(|q.keys|, m.caps.inner, Up(path) != [])
    ensures forall i :: 0 <= i < |q.kids| ==> s.inners[q.id].children[i] == q.kids[i].id && Represents(s, q.kids[i])
    ensures forall q' :: Replace(Replace(t, path, x), Up(path), q') == Replace(t, Up(path), q')
  {
    var t1 := Replace(t, path, x);
    ReplaceAbove(t, path, x, x);
    SubReplace(t, path, x);
    SubRepresents(s, t1, Up(path));
    SubOk(t, h, m, Up(path));
    forall q' ensures Replace(t1, Up(path), q') == Replace(t, Up(path), q') { ReplaceAbove(t, path, x, q'); }
  }

  /** The parent replaced by one whose children are good. */
  lemma ParentOk(t: Tree, h: nat, m: Mode, path: Path, q': Tree)
    requires Ok(t, h, Inf, Inf, m, true) && path != [] && ValidPath(t, path) && |path| < h && q'.Node?
    requires KidsOk(q'.keys, q'.kids, h - |path|, LoAt(t, Up(path)), HiAt(t, Up(path)), m)
    requires SizeOk(|q'.keys|, m.caps.inner, m.fill && Up(path) != []) && (m.fill ==> 1 <= |q'.keys|)
    ensures Ok(Replace(t, Up(path), q'), h, Inf, Inf, m, true)
  {
    ReplaceOk(t, h, m, Up(path), q');
  }

  // ---------------------------------------------------------------- leaf borrow

  /** The pages after a borrow between leaves u and w under q. */
  function BorrowStore(s: Store, q: Tree, j: nat, a: Tree, sep: Key, b: Tree): Store
    requires q.Node? && j < |q.keys| && q.id in s.inners && a.Leaf? && b.Leaf?
  {
    Store(s.leaves[a.id := LeafNode(a.keys, a.refs)][b.id := LeafNode(b.keys, b.refs)],
          s.inners[q.id := InnerNode(q.keys[j := sep], s.inners[q.id].children)])
  }

  lemma BorrowStoreSame(s: Store, q: Tree, j: nat, a: Tree, sep: Key, b: Tree)
    requires q.Node? && j < |q.keys| && q.id in s.inners && q.id !in s.leaves && a.Leaf? && b.Leaf?
    requires a.id in s.leaves && b.id in s.leaves && a.id != b.id
    ensures var s' := BorrowStore(s, q, j, a, sep, b);
            && SameBut(s, s', {q.id, a.id, b.id}) && s'.leaves.Keys == s.leaves.Keys && s'.inners.Keys == s.inners.Keys
            && Represents(s', a) && Represents(s', b)
            && s'.inners[q.id] == InnerNode(q.keys[j := sep], s.inners[q.id].children)
  {
  }

  lemma BorrowRepresents(s: Store, t: Tree, up: Path, q: Tree, j: nat, a: Tree, sep: Key, b: Tree)
    requires Represents(s, t) && Owns(s, Pages(t)) && ValidPath(t, up) && q == Sub(t, up)
    requires q.Node? && j < |q.keys| && j + 1 < |q.kids| && q.id in s.inners && q.id !in s.leaves
    requires q.kids[j].Leaf? && q.kids[j + 1].Leaf? && Represents(s, q.kids[j]) && Represents(s, q.kids[j + 1])
    requires a.Leaf? && b.Leaf? && a.id == q.kids[j].id && b.id == q.kids[j + 1].id
    ensures var s', t' := BorrowStore(s, q, j, a, sep, b), Replace(t, up, Rotated(q, j, a, sep, b));
            Represents(s', t') && Owns(s', Pages(t'))
  {
    var s' := BorrowStore(s, q, j, a, sep, b);
    OwnsDistinct(s, t, multiset{});
    DistinctSub(t, up);
    DistinctKids(q, j, j + 1);
    assert a.id in Pages(q.kids[j]) && b.id in Pages(q.kids[j + 1]);
    BorrowStoreSame(s, q, j, a, sep, b);
    RotatedStore(s, s', t, up, q, j, a, sep, b);
  }

  lemma BorrowIds(s: Store, q: Tree, j: nat, a: Tree, sep: Key, b: Tree)
    requires q.Node? && j < |q.keys| && q.id in s.inners && a.Leaf? && b.Leaf? && a.id in s.leaves && b.id in s.leaves
    ensures BorrowStore(s, q, j, a, sep, b).Ids() == s.Ids()
  {
  }

  /** A borrow between leaves, as it stands in the pages: new leaves a and b of q. */
  ghost predicate BorrowPlace(s: Store, t: Tree, h: nat, m: Mode, path: Path, x: Tree, q: Tree, j: nat, a: Tree,
                              b: Tree) {
    && Short(s, t, h, m, path, x) && x.Leaf? && q == ParentOf(t, path, x) && q.Node?
    && (j + 1 == path[|path| - 1].idx || (j == path[|path| - 1].idx && j < |q.keys|))
    && j < |q.keys| && j + 1 < |q.kids| && q.id in s.inners && q.kids[j].Leaf? && q.kids[j + 1].Leaf?
    && a.Leaf? && b.Leaf? && a.id == q.kids[j].id && b.id == q.kids[j + 1].id
  }

  lemma BorrowStored(s: Store, t: Tree, h: nat, m: Mode, path: Path, x: Tree, q: Tree, j: nat, a: Tree, sep: Key,
                     b: Tree)
    requires BorrowPlace(s, t, h, m, path, x, q, j, a, b)
    ensures var s', t' := BorrowStore(s, q, j, a, sep, b), Replace(t, Up(path), Rotated(q, j, a, sep, b));
            Represents(s', t') && Owns(s', Pages(t')) && t'.id == t.id
  {
    ParentFacts(s, t, h, m, path, x, q);
    BorrowRepresents(s, Replace(t, path, x), Up(path), q, j, a, sep, b);
    SubReplace(t, Up(path), Rotated(q, j, a, sep, b));
  }

  /** A borrow between leaves ends the repair: the tree is good, and one reference sits under
      the wrong key. */
  lemma BorrowReady(s: Store, t: Tree, h: nat, m: Mode, path: Path, x: Tree, q: Tree, j: nat, a: Tree, sep: Key,
                    b: Tree, r: PageReference)
    requires BorrowPlace(s, t, h, m, path, x, q, j, a, b)
    requires SizeOk(|a.keys|, m.caps.leaf, true) && SizeOk(|b.keys|, m.caps.leaf, true)
    requires LeafPair(a, sep, b, LoOf(q.keys, LoAt(t, Up(path)), j), HiOf(q.keys, HiAt(t, Up(path)), j + 1), m.strict)
    requires Borrowed(q.kids[j], q.keys[j], q.kids[j + 1], a, sep, b, r)
    ensures var t' := Replace(t, Up(path), Rotated(q, j, a, sep, b));
            && Good(BorrowStore(s, q, j, a, sep, b), t', h, m) && t'.id == t.id
            && Misplaced(Replace(t, path, x), t', q.keys[j], sep, r)
  {
    BorrowStored(s, t, h, m, path, x, q, j, a, sep, b);
    PairFacts(t, h, m, path, x, q, j);
    BorrowRepair(q, j, LoAt(t, Up(path)), HiAt(t, Up(path)), m, a, sep, b, r);
    var q' := Rotated(q, j, a, sep, b);
    ParentOk(t, h, m, path, q');
    BorrowRoutes(t, h, m, path, q, j, sep);
    BorrowRoutes(t, h, m, path, q, j, q.keys[j]);
    MisplacedAbove(t, h, m, path, x, q, q', q.keys[j], sep, r);
  }

  /** A borrow that breaks the order loses one key; the tree satisfies no form of the invariant
      any more. */
  lemma BorrowBreaks(s: Store, t: Tree, h: nat, m: Mode, path: Path, x: Tree, q: Tree, j: nat, a: Tree, sep: Key,
                     b: Tree, lost: Key)
    requires BorrowPlace(s, t, h, m, path, x, q, j, a, b)
    requires var lo, hi := LoOf(q.keys, LoAt(t, Up(path)), j), HiOf(q.keys, HiAt(t, Up(path)), j + 1);
             && Above(lo, sep) && Below(sep, hi, true) && Above(lo, lost) && Below(lost, hi, false)
             && !LeafPair(a, sep, b, lo, hi, false)
    requires Dropped(q.kids[j], q.keys[j], q.kids[j + 1], a, sep, b, lost)
    ensures var t' := Replace(t, Up(path), Rotated(q, j, a, sep, b));
            && Loses(Replace(t, path, x), t', lost)
            && forall m' :: !Ok(t', h, Inf, Inf, m', true)
  {
    var up, q' := Up(path), Rotated(q, j, a, sep, b);
    PairFacts(t, h, m, path, x, q, j);
    BorrowDrops(q, j, LoAt(t, up), HiAt(t, up), m, a, sep, b, lost);
    BorrowRoutes(t, h, m, path, q, j, lost);
    LosesAbove(t, path, x, q, q', lost);
    forall m' ensures !Ok(Replace(t, up, q'), h, Inf, Inf, m', true) {
      if Ok(Replace(t, up, q'), h, Inf, Inf, m', true) { PairInOrder(t, h, m', up, q', j); }
    }
  }

  /** The pair of leaves under a node of a tree in order is in order. */
  lemma PairInOrder(t: Tree, h: nat, m: Mode, up: Path, q: Tree, j: nat)
    requires ValidPath(t, up) && q.Node? && q.id == Sub(t, up).id && Ok(Replace(t, up, q), h, Inf, Inf, m, true)
    requires j + 1 < |q.kids| && j < |q.keys| && q.kids[j].Leaf? && q.kids[j + 1].Leaf?
    ensures LeafPair(q.kids[j], q.keys[j], q.kids[j + 1],
                     LoOf(q.keys, LoAt(t, up), j), HiOf(q.keys, HiAt(t, up), j + 1), false)
  {
    var t' := Replace(t, up, q);
    SubReplace(t, up, q);
    SubOk(t', h, m, up);
    BoundsReplace(t, up, q);
    var lo, hi := LoAt(t, up), HiAt(t, up);
    assert Ok(q.kids[j], h - |up| - 1, LoOf(q.keys, lo, j), HiOf(q.keys, hi, j), m, false);
    assert Ok(q.kids[j + 1], h - |up| - 1, LoOf(q.keys, lo, j + 1), HiOf(q.keys, hi, j + 1), m, false);
  }

  /** Replacing a node does not move the bounds around it. */
  lemma {:induction false} BoundsReplace(t: Tree, up: Path, q: Tree)
    requires ValidPath(t, up) && q.id == Sub(t, up).id
    ensures ValidPath(Replace(t, up, q), up)
    ensures LoAt(Replace(t, up, q), up) == LoAt(t, up) && HiAt(Replace(t, up, q), up) == HiAt(t, up)
    decreases |up|
  {
    SubReplace(t, up, q);
    if up != [] {
      var above, i := up[..|up| - 1], up[|up| - 1].idx;
      var p := WithKid(Sub(t, above), i, q);
      SubReplace(t, above, p);
      BoundsReplace(t, above, p);
    }
  }

  lemma BorrowRoutes(t: Tree, h: nat, m: Mode, path: Path, q: Tree, j: nat, sep: Key)
    requires Ok(t, h, Inf, Inf, m, true) && path != [] && ValidPath(t, path) && |path| < h && h - |path| == 1
    requires PairAt(q, j, 1, LoAt(t, Up(path)), HiAt(t, Up(path)), m)
    requires Above(LoOf(q.keys, LoAt(t, Up(path)), j), sep) && Below(sep, HiOf(q.keys, HiAt(t, Up(path)), j + 1), false)
    ensures Routes(t, Up(path), sep)
  {
    InPair(q, j, LoAt(t, Up(path)), HiAt(t, Up(path)), m, sep);
    InBoundsRoutes(t, h, m, Up(path), sep);
  }

  // ---------------------------------------------------------------- leaf merge

  /** The pages after merging leaf w into its left neighbour u under q. */
  function MergeStore(s: Store, q: Tree, j: nat, a: Tree): Store
    requires q.Node? && j < |q.keys| && j + 1 < |q.kids| && q.id in s.inners && a.Leaf?
    requires j + 1 < |s.inners[q.id].children|
  {
    Store(s.leaves[a.id := LeafNode(a.keys, a.refs)] - {q.kids[j + 1].id},
          s.inners[q.id := InnerNode(RemoveAt(q.keys, j), RemoveAt(s.inners[q.id].children, j + 1))])
  }

  lemma MergeStoreSame(s: Store, q: Tree, j: nat, a: Tree)
    requires q.Node? && j < |q.keys| && j + 1 < |q.kids| && q.id in s.inners && q.id !in s.leaves && a.Leaf?
    requires j + 1 < |s.inners[q.id].children|
    requires a.id in s.leaves && a.id != q.kids[j + 1].id
    ensures var s' := MergeStore(s, q, j, a);
            && SameBut(s, s', {q.id, a.id, q.kids[j + 1].id}) && Represents(s', a)
            && s'.leaves.Keys == s.leaves.Keys - {q.kids[j + 1].id} && s'.inners.Keys == s.inners.Keys
            && s'.inners[q.id] == InnerNode(RemoveAt(q.keys, j), RemoveAt(s.inners[q.id].children, j + 1))
  {
  }

  lemma MergeRepresents(s: Store, t: Tree, up: Path, q: Tree, j: nat, a: Tree)
    requires Represents(s, t) && Owns(s, Pages(t)) && ValidPath(t, up) && q == Sub(t, up)
    requires q.Node? && j < |q.keys| && j + 1 < |q.kids| && q.id in s.inners && q.id !in s.leaves
    requires |s.inners[q.id].children| == |q.kids|
    requires q.kids[j].Leaf? && q.kids[j + 1].Leaf? && Represents(s, q.kids[j]) && Represents(s, q.kids[j + 1])
    requires a.Leaf? && a.id == q.kids[j].id
    ensures var s', t' := MergeStore(s, q, j, a), Replace(t, up, Fused(q, j, a));
            Represents(s', t') && Owns(s', Pages(t'))
  {
    var s' := MergeStore(s, q, j, a);
    OwnsDistinct(s, t, multiset{});
    DistinctSub(t, up);
    DistinctKids(q, j, j + 1);
    assert a.id in Pages(q.kids[j]) && q.kids[j + 1].id in Pages(q.kids[j + 1]);
    MergeStoreSame(s, q, j, a);
    FusedStore(s, s', t, up, q, j, a);
  }

  /** Merging always fits, changes no search, and leaves the parent in order with one key
      fewer. */
  lemma MergeReady(s: Store, t: Tree, h: nat, m: Mode, path: Path, x: Tree, q: Tree, j: nat, a: Tree)
    requires Short(s, t, h, m, path, x) && x.Leaf? && q == ParentOf(t, path, x) && q.Node?
    requires j + 1 == path[|path| - 1].idx || (j == path[|path| - 1].idx && j < |q.keys|)
    requires j < |q.keys| && j + 1 < |q.kids| && q.kids[j].Leaf? && q.kids[j + 1].Leaf? && q.id in s.inners
    requires j + 1 < |s.inners[q.id].children|
    requires var o := if j == path[|path| - 1].idx then j + 1 else j; |q.kids[o].keys| <= m.caps.leaf / 2
    requires a == Merged(q.kids[j], q.kids[j + 1])
    ensures |a.keys| <= m.caps.leaf && |a.keys| == |a.refs|
    ensures var q' := Fused(q, j, a);
            var t' := Replace(t, Up(path), q');
            && Represents(MergeStore(s, q, j, a), t') && Owns(MergeStore(s, q, j, a), Pages(t')) && t'.id == t.id
            && KidsOk(q'.keys, q'.kids, h - |path|, LoAt(t, Up(path)), HiAt(t, Up(path)), m)
            && SameSearches(Replace(t, path, x), t')
  {
    ParentFacts(s, t, h, m, path, x, q);
    PairFacts(t, h, m, path, x, q, j);
    MergeFits(q, j, path[|path| - 1].idx, x, h, LoAt(t, Up(path)), HiAt(t, Up(path)), m);
    MergeRepair(q, j, LoAt(t, Up(path)), HiAt(t, Up(path)), m);
    var q' := Fused(q, j, a);
    MergeRepresents(s, Replace(t, path, x), Up(path), q, j, a);
    SameAbove(t, path, x, q, q');
    SubReplace(t, Up(path), q');
  }

  lemma MergeFits(q: Tree, j: nat, i: nat, x: Tree, h: nat, lo: Bound, hi: Bound, m: Mode)
    requires q.Node? && j + 1 < |q.kids| && (i == j || i == j + 1) && q.kids[i] == x && x.Leaf? && j < |q.keys|
    requires |q.kids| == |q.keys| + 1
    requires |x.keys| + 1 == m.caps.leaf / 2 && m.fill
    requires var o := if j == i then j + 1 else j;
             && q.kids[o].Leaf? && |q.kids[o].keys| <= m.caps.leaf / 2
             && Ok(q.kids[o], 1, LoOf(q.keys, lo, o), HiOf(q.keys, hi, o), m, false)
    ensures m.caps.leaf / 2 <= |q.kids[j].keys| + |q.kids[j + 1].keys| <= m.caps.leaf
  {
  }

  /** The root has no keys left: its only child becomes the root. */
  lemma CollapseReady(s: Store, t: Tree, h: nat, m: Mode, q: Tree)
    requires q.Node? && |q.keys| == 0 && h > 1 && KidsOk(q.keys, q.kids, h - 1, Inf, Inf, m)
    requires Represents(s, q) && Owns(s, Pages(q))
    ensures Good(Store(s.leaves, s.inners - {q.id}), q.kids[0], h - 1, m)
    ensures SameSearches(q, q.kids[0])
  {
    var x := q.kids[0];
    var s' := Store(s.leaves, s.inners - {q.id});
    assert Ok(x, h - 1, Inf, Inf, m, false);
    AsRoot(x, h - 1, m);
    assert q.kids == [x] && Bags([x], OwnPage) == Pages(x) + Bags([x][1..], OwnPage);
    assert Pages(q) == multiset{q.id} + Pages(x);
    assert q.id !in Pages(x) by { assert Pages(q)[q.id] <= 1; }
    RepresentsFrame(s, s', x);
    forall p ensures Pages(x)[p] == if p in s'.Ids() then 1 else 0 {
      assert Pages(q)[p] == if p in s.Ids() then 1 else 0;
    }
  }

  lemma AsRoot(x: Tree, h: nat, m: Mode)
    requires Ok(x, h, Inf, Inf, m, false)
    ensures Ok(x, h, Inf, Inf, m, true)
  {
  }

  /** The parent is one key short in its turn. */
  lemma NowShort(s: Store, t: Tree, h: nat, m: Mode, path: Path, q': Tree)
    requires Ok(t, h, Inf, Inf, m, true) && m.fill && m.caps.leaf >= 2 && m.caps.inner >= 2
    requires path != [] && ValidPath(t, path) && |path| < h && Up(path) != []
    requires q'.Node? && q'.id == Sub(t, Up(path)).id && |q'.keys| + 1 == |Sub(t, Up(path)).keys|
    requires KidsOk(q'.keys, q'.kids, h - |path|, LoAt(t, Up(path)), HiAt(t, Up(path)), m)
    requires |q'.keys| < m.caps.inner / 2
    requires Represents(s, Replace(t, Up(path), q')) && Owns(s, Pages(Replace(t, Up(path), q')))
    ensures Short(s, t, h, m, Up(path), q')
  {
    SubOk(t, h, m, Up(path));
  }

  // ---------------------------------------------------------------- inner rotation

  /** A rotation between inner neighbours ends the repair, and no search changes. */
  lemma RotationReady(s: Store, t: Tree, h: nat, m: Mode, path: Path, x: Tree, q: Tree, j: nat, i: nat, s': Store)
    requires Short(s, t, h, m, path, x) && x.Node? && q == ParentOf(t, path, x) && q.Node?
    requires j + 1 == path[|path| - 1].idx || (j == path[|path| - 1].idx && j < |q.keys|)
    requires j < |q.keys| && j + 1 < |q.kids| && q.kids[j].Node? && q.kids[j + 1].Node? && q.id in s.inners
    requires var u, w := q.kids[j], q.kids[j + 1];
             && i < |RunKeys(u, q.keys[j], w)| && i < |RunKids(u, w)|
             && u.id in s.inners && w.id in s.inners
             && i < |s.inners[u.id].children + s.inners[w.id].children|
             && s' == RotationStore(s, q, j, i, s.inners[u.id].children, s.inners[w.id].children)
             && m.caps.inner / 2 <= i <= m.caps.inner && m.caps.inner / 2 <= |u.keys| + |w.keys| - i <= m.caps.inner
    ensures var u, sep, w := q.kids[j], q.keys[j], q.kids[j + 1];
            var t' := Replace(t, Up(path),
                              Rotated(q, j, CutLeft(u, sep, w, i), RunKeys(u, sep, w)[i], CutRight(u, sep, w, i)));
            Good(s', t', h, m) && t'.id == t.id && SameSearches(Replace(t, path, x), t')
    ensures s'.Ids() == s.Ids()
  {
    var u, sep, w := q.kids[j], q.keys[j], q.kids[j + 1];
    var q' := Rotated(q, j, CutLeft(u, sep, w, i), RunKeys(u, sep, w)[i], CutRight(u, sep, w, i));
    RotationIds(s, q, j, i, s');
    ParentFacts(s, t, h, m, path, x, q);
    RotationInOrder(t, h, m, path, x, q, j, i, q');
    RotationPages(s, Replace(t, path, x), Up(path), q, j, i, s');
    SameAbove(t, path, x, q, q');
    SubReplace(t, Up(path), q');
  }

  lemma RotationIds(s: Store, q: Tree, j: nat, i: nat, s': Store)
    requires q.Node? && j < |q.keys| && j + 1 < |q.kids| && q.kids[j].Node? && q.kids[j + 1].Node? && q.id in s.inners
    requires var u, w := q.kids[j], q.kids[j + 1];
             && i < |RunKeys(u, q.keys[j], w)| && i < |RunKids(u, w)|
             && u.id in s.inners && w.id in s.inners
             && i < |s.inners[u.id].children + s.inners[w.id].children|
             && s' == RotationStore(s, q, j, i, s.inners[u.id].children, s.inners[w.id].children)
    ensures s'.Ids() == s.Ids()
  {
  }

  lemma RotationInOrder(t: Tree, h: nat, m: Mode, path: Path, x: Tree, q: Tree, j: nat, i: nat, q': Tree)
    requires Ok(t, h, Inf, Inf, m, true) && m.fill && m.caps.inner >= 2
    requires path != [] && ValidPath(t, path) && |path| < h
    requires InPlace(x, h - |path|, LoAt(t, path), HiAt(t, path), m)
    requires q == WithKid(Sub(t, Up(path)), path[|path| - 1].idx, x) && q.Node?
    requires j + 1 == path[|path| - 1].idx || (j == path[|path| - 1].idx && j < |q.keys|)
    requires j < |q.keys| && j + 1 < |q.kids| && q.kids[j].Node? && q.kids[j + 1].Node?
    requires var u, sep, w := q.kids[j], q.keys[j], q.kids[j + 1];
             && i < |RunKeys(u, sep, w)| && i < |RunKids(u, w)|
             && m.caps.inner / 2 <= i <= m.caps.inner && m.caps.inner / 2 <= |u.keys| + |w.keys| - i <= m.caps.inner
             && q' == Rotated(q, j, CutLeft(u, sep, w, i), RunKeys(u, sep, w)[i], CutRight(u, sep, w, i))
    ensures Ok(Replace(t, Up(path), q'), h, Inf, Inf, m, true) && SameSearches(q, q')
    ensures |q.kids[j].kids| == |q.kids[j].keys| + 1 && |q.kids[j + 1].kids| == |q.kids[j + 1].keys| + 1
  {
    PairFacts(t, h, m, path, x, q, j);
    RotationRepair(q, j, h - |path|, LoAt(t, Up(path)), HiAt(t, Up(path)), m, i);
    ParentOk(t, h, m, path, q');
  }

  lemma RotationPages(s: Store, t: Tree, up: Path, q: Tree, j: nat, i: nat, s': Store)
    requires Represents(s, t) && Owns(s, Pages(t)) && ValidPath(t, up) && q == Sub(t, up)
    requires q.Node? && j < |q.keys| && j + 1 < |q.kids| && q.id in s.inners && q.id !in s.leaves
    requires q.kids[j].Node? && q.kids[j + 1].Node?
    requires var u, w := q.kids[j], q.kids[j + 1];
             && |u.kids| == |u.keys| + 1 && |w.kids| == |w.keys| + 1
             && i < |RunKeys(u, q.keys[j], w)|
             && u.id in s.inners && w.id in s.inners && |s.inners[u.id].children| == |u.kids|
             && |s.inners[w.id].children| == |w.kids|
             && s' == RotationStore(s, q, j, i, s.inners[u.id].children, s.inners[w.id].children)
    ensures var u, sep, w := q.kids[j], q.keys[j], q.kids[j + 1];
            var t' := Replace(t, up,
                              Rotated(q, j, CutLeft(u, sep, w, i), RunKeys(u, sep, w)[i], CutRight(u, sep, w, i)));
            Represents(s', t') && Owns(s', Pages(t'))
  {
    var u, sep, w := q.kids[j], q.keys[j], q.kids[j + 1];
    OwnsDistinct(s, t, multiset{});
    DistinctSub(t, up);
    SubRepresents(s, t, up);
    RotationRepresents(s, q, j, i, s');
    assert Pages(CutLeft(u, sep, w, i)) + Pages(CutRight(u, sep, w, i)) == Pages(u) + Pages(w) by {
      CutPages(u, sep, w, i);
    }
    RotatedStore(s, s', t, up, q, j, CutLeft(u, sep, w, i), RunKeys(u, sep, w)[i], CutRight(u, sep, w, i));
  }

  // ---------------------------------------------------------------- a refused merge

  /** Left as it is, a tree with a short node is still in order and of uniform depth. */
  /** A tree with a node one key short is not filled. */
  lemma ShortNotFilled(s: Store, t: Tree, h: nat, m: Mode, path: Path, x: Tree)
    requires Short(s, t, h, m, path, x)
    ensures !Ok(Replace(t, path, x), h, Inf, Inf, m, true)
  {
    SubReplace(t, path, x);
    if Ok(Replace(t, path, x), h, Inf, Inf, m, true) { SubOk(Replace(t, path, x), h, m, path); }
  }

  lemma ShortStillOrdered(s: Store, t: Tree, h: nat, m: Mode, path: Path, x: Tree)
    requires Short(s, t, h, m, path, x)
    ensures Good(s, Replace(t, path, x), h, NoFill(m))
  {
    Unfill(t, h, Inf, Inf, m, true);
    ShortOk(x, h - |path|, LoAt(t, path), HiAt(t, path), m);
    ReplaceOk(t, h, NoFill(m), path, x);
  }

  lemma ShortOk(x: Tree, h: nat, lo: Bound, hi: Bound, m: Mode)
    requires InPlace(x, h, lo, hi, m) && |x.keys| <= if x.Leaf? then m.caps.leaf else m.caps.inner
    ensures Ok(x, h, lo, hi, NoFill(m), false)
  {
    if x.Node? {
      forall i | 0 <= i < |x.kids|
        ensures Ok(x.kids[i], h - 1, LoOf(x.keys, lo, i), HiOf(x.keys, hi, i), NoFill(m), false)
      {
        Unfill(x.kids[i], h - 1, LoOf(x.keys, lo, i), HiOf(x.keys, hi, i), m, false);
      }
    }
  }
}
