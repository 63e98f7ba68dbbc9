/**
  Erase and the rebalancing it sets off, as methods that rewrite the tree's pages.
 */
module Deleting {
  import opened Options
  import opened PageReferences
  import opened Trees
  import opened Stores
  import opened Rebalancing
  import opened Inserting
  import opened Erasing
  import opened Repairs
  import opened ErasedKeys
  import opened Space
  import opened BTrees

  const SIZE_LIMIT: nat := 0x1_0000_0000_0000_0000

  /** The size counter is unsigned. */
  function Decremented(n: nat): nat { if n == 0 then SIZE_LIMIT - 1 else n - 1 }

  // ---------------------------------------------------------------- what an erase sets off

  /** The node has a child where the descent for key goes. */
  predicate HasKid(t: Tree, key: Key) { t.Node? && LowerBound(t.keys, key) < |t.kids| }

  function Kid(t: Tree, key: Key): Tree
    requires HasKid(t, key)
  {
    t.kids[LowerBound(t.keys, key)]
  }

  /** The parent of the leaf the descent for key ends in. */
  function LeafParent(t: Tree, key: Key): Tree {
    if HasKid(t, key) && Kid(t, key).Node? then LeafParent(Kid(t, key), key) else t
  }

  /** The parent of that parent. */
  function LeafGrandparent(t: Tree, key: Key): Tree {
    if HasKid(t, key) && HasKid(Kid(t, key), key) && Kid(Kid(t, key), key).Node?
    then LeafGrandparent(Kid(t, key), key)
    else t
  }

  /** A neighbour of child i has more than n keys. */
  predicate HasSpare(kids: seq<Tree>, i: nat, n: nat) {
    || (0 < i <= |kids| && |kids[i - 1].keys| > n)
    || (i + 1 < |kids| && |kids[i + 1].keys| > n)
  }

  /** Erasing key leaves its leaf, a child of p, short. */
  predicate Falls(p: Tree, key: Key, caps: Caps) {
    HasKid(p, key) && Kid(p, key).Leaf? && |Kid(p, key).keys| <= caps.leaf / 2
  }

  /** Erasing key leaves its leaf short while a neighbour has a key to spare. */
  predicate Borrows(t: Tree, key: Key, caps: Caps) {
    var p := LeafParent(t, key);
    Falls(p, key, caps) && HasSpare(p.kids, LowerBound(p.keys, key), caps.leaf / 2)
  }

  /** Erasing key leaves its leaf short, the leaf merges, that leaves its parent short, and no
      neighbour of the parent has a key to spare: the merge of inner nodes is refused. */
  predicate Refused(t: Tree, key: Key, caps: Caps) {
    var g := LeafGrandparent(t, key);
    && HasKid(g, key) && Kid(g, key).Node?
    && var p := Kid(g, key);
    && Falls(p, key, caps) && !HasSpare(p.kids, LowerBound(p.keys, key), caps.leaf / 2)
    && |p.keys| <= caps.inner / 2 && !HasSpare(g.kids, LowerBound(g.keys, key), caps.inner / 2)
  }

  /** The left one of the two leaves between which child i borrows: the left neighbour lends
      if it can. */
  function PairIndex(p: Tree, i: nat, n: nat): nat
    requires p.Node?
  {
    if 0 < i <= |p.kids| && |p.kids[i - 1].keys| > n then i - 1 else i
  }

  /** The borrow breaks the order: the left leaf of the pair holds the separator, other than as
      the key being erased. */
  predicate Breaks(t: Tree, key: Key, caps: Caps) {
    && Borrows(t, key, caps)
    && var p := LeafParent(t, key);
    && var i := LowerBound(p.keys, key);
    && var j := PairIndex(p, i, caps.leaf / 2);
    && j < |p.keys| && j < |p.kids| && p.keys[j] in p.kids[j].keys && !(j == i && p.keys[j] == key)
  }

  /** The separator that goes when child i of p, a key short, cannot borrow and merges. */
  function MergeDrops(p: Tree, i: nat, n: nat): multiset<Key>
    requires p.Node?
  {
    if HasSpare(p.kids, i, n) || p.keys == [] || i > |p.keys| then multiset{}
    else multiset{p.keys[if i > 0 then i - 1 else 0]}
  }

  /** The separators that go when key is erased: one if its leaf merges. */
  function EraseDrops(t: Tree, key: Key, caps: Caps): multiset<Key> {
    var p := LeafParent(t, key);
    if Falls(p, key, caps) then MergeDrops(p, LowerBound(p.keys, key), caps.leaf / 2) else multiset{}
  }

  lemma {:induction false} LeafParentSub(t: Tree, up: Path, key: Key)
    requires ValidPath(t, up) && Routes(t, up, key) && Sub(t, up).Node?
    ensures LeafParent(t, key) == LeafParent(Sub(t, up), key)
    decreases |up|
  {
    if up != [] { LeafParentSub(t, up[..|up| - 1], key); }
  }

  lemma {:induction false} LeafGrandparentSub(t: Tree, up: Path, key: Key)
    requires ValidPath(t, up) && Routes(t, up, key) && HasKid(Sub(t, up), key) && Kid(Sub(t, up), key).Node?
    ensures LeafGrandparent(t, key) == LeafGrandparent(Sub(t, up), key)
    decreases |up|
  {
    if up != [] { LeafGrandparentSub(t, up[..|up| - 1], key); }
  }

  /** Where the descent ended, seen from the predicates above. */
  lemma AtLeaf(t: Tree, path: Path, key: Key)
    requires ValidPath(t, path) && Routes(t, path, key) && Sub(t, path).Leaf?
    ensures path == [] ==> LeafParent(t, key) == t == LeafGrandparent(t, key)
    ensures path != [] ==> ValidPath(t, Up(path))
    ensures |path| > 1 ==> ValidPath(t, Up(Up(path)))
    ensures path != [] ==>
              && LeafParent(t, key) == Sub(t, Up(path)) && HasKid(Sub(t, Up(path)), key)
              && LowerBound(Sub(t, Up(path)).keys, key) == path[|path| - 1].idx
              && Kid(Sub(t, Up(path)), key) == Sub(t, path)
    ensures |path| == 1 ==> LeafGrandparent(t, key) == t
    ensures |path| > 1 ==>
              && LeafGrandparent(t, key) == Sub(t, Up(Up(path))) && HasKid(Sub(t, Up(Up(path))), key)
              && LowerBound(Sub(t, Up(Up(path))).keys, key) == path[|path| - 2].idx
              && Kid(Sub(t, Up(Up(path))), key) == Sub(t, Up(path))
  {
    if path != [] { LeafParentSub(t, Up(path), key); }
    if |path| > 1 { LeafGrandparentSub(t, Up(Up(path)), key); }
  }

  /** What a repair may have done to the map: nothing, one misplaced reference, or one key
      lost. */
  datatype Effect = Exact | Moved(sep: Key, key: Key, ref: PageReference) | Lost(key: Key)

  ghost predicate Repaired(t: Tree, t': Tree, e: Effect) {
    match e
    case Exact => SameSearches(t, t')
    case Moved(sep, key, r) => Misplaced(t, t', sep, key, r)
    case Lost(key) => Loses(t, t', key)
  }

  /** Which entry child i of p borrows: the last one of the left neighbour if that has more than
      n, else the first one of the right neighbour. */
  predicate Lends(p: Tree, i: nat, n: nat, e: Effect) {
    && p.Node?
    && (e.Exact? <==> !HasSpare(p.kids, i, n))
    && (!e.Exact? ==>
          && var j := PairIndex(p, i, n);
          && j < |p.keys| && j + 1 < |p.kids|
          && var lender := p.kids[if j == i then j + 1 else j];
          && lender.Leaf? && |lender.keys| == |lender.refs| > 0
          && var at := if j == i then 0 else |lender.keys| - 1;
          && (e.Moved? ==> e == Moved(p.keys[j], lender.keys[at], lender.refs[at]))
          && (e.Lost? ==> e == Lost(lender.keys[at])))
  }

  /** The pages are those of the tree, whatever its order. */
  ghost predicate Intact(b: BTree)
    reads b, b.space, b.space.pages, b.space.freeMap
  {
    && b.SpaceOk() && !b.Empty() && b.rootId == b.tree.id
    && Represents(b.Maps(), b.tree) && Owns(b.Maps(), Pages(b.tree))
  }

  /** No form of the invariant holds. */
  ghost predicate Broken(b: BTree)
    reads b, b.space, b.space.pages, b.space.freeMap
  {
    Intact(b) && forall m :: !Ok(b.tree, b.height, Inf, Inf, m, true)
  }

  /** A node of b is a key short; everything else is as in the good tree t. */
  ghost predicate ShortIn(b: BTree, t: Tree, m: Mode, path: Path, x: Tree)
    reads b, b.space, b.space.pages, b.space.freeMap
  {
    && b.SpaceOk() && m.caps == b.caps && !b.Empty() && b.rootId == t.id
    && Short(b.Maps(), t, b.height, m, path, x)
    && b.tree == Replace(t, path, x)
  }

  /** Takes a page out of the tree and gives it back to the space manager. */
  method ReleasePage(b: BTree, id: PageId)
    requires b.space.Valid() && (b.Maps().Ids() - {id}) <= b.space.Live() && id !in b.inners
    modifies b`leaves, b.space.pages, b.space.freeMap
    ensures b.SpaceOk() && b.leaves == old(b.leaves) - {id}
    ensures b.space.Live() == old(b.space.Live()) - {id} && b.Foreign() == old(b.Foreign()) - {id}
  {
    b.leaves := b.leaves - {id};
    var ok := b.space.FreePage(id);
  }

  // ---------------------------------------------------------------- leaves

  /** Borrowing from a leaf neighbour: pages u, w and their parent are rewritten. */
  method BorrowPages(b: BTree, page: PageId, j: nat, u: LeafNode, sep: Key, w: LeafNode,
                    ghost q: Tree, ghost t: Tree)
    requires b.SpaceOk() && q.Node? && q.id == page && j < |q.keys| && j + 1 < |q.kids| && page in b.inners
    requires b.inners[page].keys == q.keys && |b.inners[page].children| == |q.kids|
    requires b.inners[page].children[j] == q.kids[j].id && b.inners[page].children[j + 1] == q.kids[j + 1].id
    requires q.kids[j].id in b.leaves && q.kids[j + 1].id in b.leaves
    modifies b`leaves, b`inners, b`tree
    ensures b.SpaceOk() && b.tree == t
    ensures b.Maps() == BorrowStore(old(b.Maps()), q, j, Leaf(q.kids[j].id, u.keys, u.refs), sep,
                                    Leaf(q.kids[j + 1].id, w.keys, w.refs))
    ensures b.Foreign() == old(b.Foreign())
  {
    var parent := b.inners[page];
    BorrowIds(b.Maps(), q, j, Leaf(q.kids[j].id, u.keys, u.refs), sep, Leaf(q.kids[j + 1].id, w.keys, w.refs));
    b.leaves := b.leaves[parent.children[j] := u][parent.children[j + 1] := w];
    b.inners := b.inners[page := InnerNode(parent.keys[j := sep], parent.children)];
    b.tree := t;
  }

  predicate LeafStored(s: Store, id: PageId, x: Tree) {
    x.Leaf? && id == x.id && id in s.leaves && s.leaves[id] == LeafNode(x.keys, x.refs)
  }

  /** What a borrow between leaves relies on: both leaves are there and in order. */
  lemma BorrowSetup(s: Store, t: Tree, h: nat, m: Mode, path: Path, x: Tree, q: Tree, j: nat)
    requires Short(s, t, h, m, path, x) && x.Leaf? && q == ParentOf(t, path, x)
    requires var f := path[|path| - 1];
             f.page in s.inners && (j + 1 == f.idx || (j == f.idx && j < |s.inners[f.page].keys|))
    ensures q.Node? && path[|path| - 1].page == q.id && q.id in s.inners && j < |q.keys| && j + 1 < |q.kids|
    ensures s.inners[q.id].keys == q.keys && |s.inners[q.id].children| == |q.kids|
    ensures forall i | j <= i <= j + 1 :: LeafStored(s, s.inners[q.id].children[i], q.kids[i])
    ensures LeafPair(q.kids[j], q.keys[j], q.kids[j + 1], LoOf(q.keys, LoAt(t, Up(path)), j),
                     HiOf(q.keys, HiAt(t, Up(path)), j + 1), m.strict)
    ensures var f, p := path[|path| - 1], Sub(t, Up(path));
            && q.kids[f.idx] == x && |x.keys| + 1 == m.caps.leaf / 2
            && p.Node? && q == WithKid(p, f.idx, x)
            && |q.kids[if j == f.idx then j + 1 else j].keys| <= m.caps.leaf
  {
    ParentFacts(s, t, h, m, path, x, q);
    PairFacts(t, h, m, path, x, q, j);
    forall i | j <= i <= j + 1 ensures LeafStored(s, s.inners[q.id].children[i], q.kids[i]) {
      assert Represents(s, q.kids[i]);
    }
  }

  /** What a borrow leaves behind. */
  ghost predicate BorrowDone(s: Store, t: Tree, h: nat, m: Mode, path: Path, x: Tree, q: Tree, j: nat,
                             a: Tree, sep: Key, c: Tree, e: Effect)
    requires BorrowPlace(s, t, h, m, path, x, q, j, a, c)
  {
    var s', t' := BorrowStore(s, q, j, a, sep, c), Replace(t, Up(path), Rotated(q, j, a, sep, c));
    && Represents(s', t') && Owns(s', Pages(t')) && t'.id == t.id && Keys(t') == Keys(Replace(t, path, x))
    && Repaired(Replace(t, path, x), t', e)
    && (e.Moved? ==> Good(s', t', h, m))
    && (e.Lost? ==> forall m' :: !Ok(t', h, Inf, Inf, m', true))
  }

  lemma BorrowOutcome(s: Store, t: Tree, h: nat, m: Mode, path: Path, x: Tree, q: Tree, j: nat,
                      a: Tree, sep: Key, c: Tree, e: Effect, lo: Bound, hi: Bound)
    requires BorrowPlace(s, t, h, m, path, x, q, j, a, c)
    requires SizeOk(|a.keys|, m.caps.leaf, true) && SizeOk(|c.keys|, m.caps.leaf, true)
    requires lo == LoOf(q.keys, LoAt(t, Up(path)), j) && hi == HiOf(q.keys, HiAt(t, Up(path)), j + 1)
    requires Above(lo, sep) && Below(sep, hi, true)
    requires (e.Moved? || e.Lost?) && PairBag(a, sep, c) == PairBag(q.kids[j], q.keys[j], q.kids[j + 1])
    requires e.Moved? ==>
               && e.sep == q.keys[j] && e.key == sep && LeafPair(a, sep, c, lo, hi, m.strict)
               && Borrowed(q.kids[j], q.keys[j], q.kids[j + 1], a, sep, c, e.ref)
    requires e.Lost? ==>
               && Above(lo, e.key) && Below(e.key, hi, false) && !LeafPair(a, sep, c, lo, hi, false)
               && Dropped(q.kids[j], q.keys[j], q.kids[j + 1], a, sep, c, e.key)
    ensures BorrowDone(s, t, h, m, path, x, q, j, a, sep, c, e)
  {
    BorrowStored(s, t, h, m, path, x, q, j, a, sep, c);
    RotatedKeys(q, j, a, sep, c);
    KeysAbove(t, path, x, q, Rotated(q, j, a, sep, c), multiset{});
    if e.Moved? {
      BorrowReady(s, t, h, m, path, x, q, j, a, sep, c, e.ref);
    } else {
      BorrowBreaks(s, t, h, m, path, x, q, j, a, sep, c, e.key);
    }
  }

  /** Rewriting the pages of leaves j and j + 1 of q to u and w, with sep between them, is the
      borrow that makes leaves a and c of them and has effect e. */
  ghost predicate BorrowFits(s: Store, t: Tree, h: nat, m: Mode, path: Path, x: Tree, q: Tree, j: nat, page: PageId,
                             u: LeafNode, sep: Key, w: LeafNode, a: Tree, c: Tree, e: Effect)
  {
    && q.Node? && q.id == page && j < |q.keys| && j + 1 < |q.kids| && page in s.inners
    && s.inners[page].keys == q.keys && |s.inners[page].children| == |q.kids|
    && s.inners[page].children[j] == q.kids[j].id && s.inners[page].children[j + 1] == q.kids[j + 1].id
    && q.kids[j].id in s.leaves && q.kids[j + 1].id in s.leaves && (e.Moved? || e.Lost?)
    && a == Leaf(q.kids[j].id, u.keys, u.refs) && c == Leaf(q.kids[j + 1].id, w.keys, w.refs)
    && BorrowPlace(s, t, h, m, path, x, q, j, a, c)
    && BorrowDone(s, t, h, m, path, x, q, j, a, sep, c, e)
  }

  /** The pages rewritten, and what that makes of the tree. */
  method BorrowLeaf(b: BTree, page: PageId, j: nat, u: LeafNode, sep: Key, w: LeafNode,
                    ghost t: Tree, ghost m: Mode, ghost path: Path, ghost x: Tree, ghost q: Tree, ghost e: Effect,
                    ghost a: Tree, ghost c: Tree)
    requires ShortIn(b, t, m, path, x)
    requires BorrowFits(b.Maps(), t, b.height, m, path, x, q, j, page, u, sep, w, a, c, e)
    modifies b
    ensures b.size == old(b.size) && !b.Empty() && Repaired(old(b.tree), b.tree, e)
    ensures Keys(b.tree) == Keys(old(b.tree))
    ensures if e.Lost? then Broken(b) else b.Valid(m)
    ensures b.Foreign() == old(b.Foreign())
  {
    BorrowPages(b, page, j, u, sep, w, q, Replace(t, Up(path), Rotated(q, j, a, sep, c)));
  }

  lemma LeftOutcome(s: Store, t: Tree, h: nat, m: Mode, path: Path, x: Tree, q: Tree, j: nat,
                    a: Tree, sep: Key, c: Tree, e: Effect, u: Tree, w: Tree)
    requires BorrowPlace(s, t, h, m, path, x, q, j, a, c) && j + 1 == path[|path| - 1].idx
    requires u == q.kids[j] && w == q.kids[j + 1] && |u.keys| == |u.refs| && m.caps.leaf / 2 < |u.keys| <= m.caps.leaf
    requires w == x && LeafPair(u, q.keys[j], w, LoOf(q.keys, LoAt(t, Up(path)), j),
                                HiOf(q.keys, HiAt(t, Up(path)), j + 1), m.strict)
    requires a == LentLeft(u) && sep == u.keys[|u.keys| - 1] && c == GotLeft(u, q.keys[j], w)
    requires e == if q.keys[j] in u.keys then Lost(sep) else Moved(q.keys[j], sep, u.refs[|u.keys| - 1])
    ensures BorrowDone(s, t, h, m, path, x, q, j, a, sep, c, e)
  {
    var lo, hi := LoOf(q.keys, LoAt(t, Up(path)), j), HiOf(q.keys, HiAt(t, Up(path)), j + 1);
    BorrowLeftEffect(u, q.keys[j], w, lo, hi, m.strict);
    LentKeys(u, q.keys[j], w);
    BorrowOutcome(s, t, h, m, path, x, q, j, a, sep, c, e, lo, hi);
  }

  lemma RightOutcome(s: Store, t: Tree, h: nat, m: Mode, path: Path, x: Tree, q: Tree, j: nat,
                     a: Tree, sep: Key, c: Tree, e: Effect, u: Tree, w: Tree)
    requires BorrowPlace(s, t, h, m, path, x, q, j, a, c) && j == path[|path| - 1].idx
    requires u == q.kids[j] && w == q.kids[j + 1] && |w.keys| == |w.refs| && m.caps.leaf / 2 < |w.keys| <= m.caps.leaf
    requires u == x && LeafPair(u, q.keys[j], w, LoOf(q.keys, LoAt(t, Up(path)), j),
                                HiOf(q.keys, HiAt(t, Up(path)), j + 1), m.strict)
    requires a == GotRight(u, q.keys[j], w) && sep == w.keys[0] && c == LentRight(w)
    requires e == if q.keys[j] in u.keys then Lost(sep) else Moved(q.keys[j], sep, w.refs[0])
    ensures BorrowDone(s, t, h, m, path, x, q, j, a, sep, c, e)
  {
    var lo, hi := LoOf(q.keys, LoAt(t, Up(path)), j), HiOf(q.keys, HiAt(t, Up(path)), j + 1);
    BorrowRightEffect(u, q.keys[j], w, lo, hi, m.strict);
    GotKeys(u, q.keys[j], w);
    assert w.keys[0] < w.keys[1];
    BorrowOutcome(s, t, h, m, path, x, q, j, a, sep, c, e, lo, hi);
  }

  /** The leaf at j of q holds the separator above it. */
  predicate HoldsSeparator(q: Tree, j: nat) {
    q.Node? && j < |q.keys| && j < |q.kids| && q.keys[j] in q.kids[j].keys
  }

  lemma LeftLends(p: Tree, i: nat, n: nat, e: Effect)
    requires p.Node? && 0 < i < |p.kids| && i <= |p.keys|
    requires var u := p.kids[i - 1];
             && u.Leaf? && |u.keys| == |u.refs| > n
             && var at := |u.keys| - 1;
             e == Lost(u.keys[at]) || e == Moved(p.keys[i - 1], u.keys[at], u.refs[at])
    ensures Lends(p, i, n, e)
  {
  }

  lemma RightLends(p: Tree, i: nat, n: nat, e: Effect)
    requires p.Node? && i + 1 < |p.kids| && i < |p.keys| && (i > 0 ==> |p.kids[i - 1].keys| <= n)
    requires var w := p.kids[i + 1];
             && w.Leaf? && |w.keys| == |w.refs| > n
             && (e == Lost(w.keys[0]) || e == Moved(p.keys[i], w.keys[0], w.refs[0]))
    ensures Lends(p, i, n, e)
  {
  }

  /** The pages of the two leaves of a borrow are there. */
  lemma PairStored(s: Store, t: Tree, h: nat, m: Mode, path: Path, x: Tree, j: nat, n: InnerNode)
    requires Short(s, t, h, m, path, x) && x.Leaf?
    requires var f := path[|path| - 1];
             f.page in s.inners && n == s.inners[f.page] && (j + 1 == f.idx || (j == f.idx && j < |n.keys|))
    ensures j < |n.keys| && j + 1 < |n.children| && n.children[j] in s.leaves && n.children[j + 1] in s.leaves
    ensures |s.leaves[n.children[j]].keys| == |s.leaves[n.children[j]].refs|
    ensures |s.leaves[n.children[j + 1]].keys| == |s.leaves[n.children[j + 1]].refs|
  {
    var q := ParentOf(t, path, x);
    BorrowSetup(s, t, h, m, path, x, q, j);
    assert LeafStored(s, n.children[j], q.kids[j]) && LeafStored(s, n.children[j + 1], q.kids[j + 1]);
  }

  /** Which entry a borrow from the left moves, and whether it breaks the order. */
  lemma LeftEffect(s: Store, t: Tree, h: nat, m: Mode, path: Path, x: Tree, j: nat, n: InnerNode, left: LeafNode)
    returns (e: Effect)
    requires Short(s, t, h, m, path, x) && x.Leaf?
    requires path[|path| - 1].page in s.inners && n == s.inners[path[|path| - 1].page] && j + 1 == path[|path| - 1].idx
    requires j < |n.keys| && j < |n.children| && n.children[j] in s.leaves && left == s.leaves[n.children[j]]
    requires m.caps.leaf / 2 < |left.keys| == |left.refs|
    ensures var last := |left.keys| - 1;
            e == if n.keys[j] in left.keys then Lost(left.keys[last])
                 else Moved(n.keys[j], left.keys[last], left.refs[last])
    ensures Lends(Sub(t, Up(path)), j + 1, m.caps.leaf / 2, e)
    ensures e.Lost? <==> HoldsSeparator(ParentOf(t, path, x), j)
  {
    var q, last := ParentOf(t, path, x), |left.keys| - 1;
    BorrowSetup(s, t, h, m, path, x, q, j);
    assert LeafStored(s, n.children[j], q.kids[j]);
    e := if n.keys[j] in left.keys then Lost(left.keys[last]) else Moved(n.keys[j], left.keys[last], left.refs[last]);
    LeftLends(Sub(t, Up(path)), j + 1, m.caps.leaf / 2, e);
  }

  /** What writing the pages of a borrow from the left amounts to. */
  lemma LeftPlan(s: Store, t: Tree, h: nat, m: Mode, path: Path, x: Tree, j: nat, n: InnerNode,
                 left: LeafNode, node: LeafNode, e: Effect)
    returns (q: Tree, a: Tree, c: Tree)
    requires Short(s, t, h, m, path, x) && x.Leaf?
    requires path[|path| - 1].page in s.inners && n == s.inners[path[|path| - 1].page] && j + 1 == path[|path| - 1].idx
    requires j < |n.keys| && j + 1 < |n.children| && n.children[j] in s.leaves && n.children[j + 1] in s.leaves
    requires left == s.leaves[n.children[j]] && node == s.leaves[n.children[j + 1]]
    requires m.caps.leaf / 2 < |left.keys| == |left.refs|
    requires var last := |left.keys| - 1;
             e == if n.keys[j] in left.keys then Lost(left.keys[last])
                  else Moved(n.keys[j], left.keys[last], left.refs[last])
    ensures var last := |left.keys| - 1;
            BorrowFits(s, t, h, m, path, x, q, j, path[|path| - 1].page, LeafNode(left.keys[..last], left.refs[..last]),
                       left.keys[last], LeafNode([n.keys[j]] + node.keys, [left.refs[last]] + node.refs), a, c, e)
  {
    q := ParentOf(t, path, x);
    BorrowSetup(s, t, h, m, path, x, q, j);
    var u, w := q.kids[j], q.kids[j + 1];
    assert LeafStored(s, n.children[j], u) && LeafStored(s, n.children[j + 1], w);
    a, c := LentLeft(u), GotLeft(u, q.keys[j], w);
    LeftOutcome(s, t, h, m, path, x, q, j, a, left.keys[|left.keys| - 1], c, e, u, w);
  }

  /** The left neighbour lends: its last key goes up, its last reference goes right beside
      the old separator.  When its last key is the separator the order is broken. */
  method BorrowFromLeftLeaf(b: BTree, path: Path, ghost t: Tree, ghost m: Mode, ghost x: Tree) returns (ghost e: Effect)
    requires ShortIn(b, t, m, path, x) && x.Leaf?
    requires var f := path[|path| - 1];
             && f.idx > 0 && f.page in b.inners && f.idx < |b.inners[f.page].children|
             && var c := b.inners[f.page].children;
             && c[f.idx - 1] in b.leaves && |b.leaves[c[f.idx - 1]].keys| > b.caps.leaf / 2
    modifies b
    ensures b.size == old(b.size) && !b.Empty() && Repaired(old(b.tree), b.tree, e)
    ensures Keys(b.tree) == Keys(old(b.tree))
    ensures if e.Lost? then Broken(b) else b.Valid(m)
    ensures Lends(Sub(t, Up(path)), path[|path| - 1].idx, b.caps.leaf / 2, e) && !e.Exact?
    ensures e.Lost? <==> HoldsSeparator(ParentOf(t, path, x), path[|path| - 1].idx - 1)
    ensures b.Foreign() == old(b.Foreign())
  {
    var f := path[|path| - 1];
    var parent, j := b.inners[f.page], f.idx - 1;
    PairStored(b.Maps(), t, b.height, m, path, x, j, parent);
    var left, node := b.leaves[parent.children[j]], b.leaves[parent.children[j + 1]];
    var n := |left.keys| - 1;
    e := LeftEffect(b.Maps(), t, b.height, m, path, x, j, parent, left);
    ghost var q, a, c := LeftPlan(b.Maps(), t, b.height, m, path, x, j, parent, left, node, e);
    BorrowLeaf(b, f.page, j, LeafNode(left.keys[..n], left.refs[..n]), left.keys[n],
               LeafNode([parent.keys[j]] + node.keys, [left.refs[n]] + node.refs), t, m, path, x, q, e, a, c);
  }

  /** What writing the pages of a borrow from the right amounts to. */
  lemma RightPlan(s: Store, t: Tree, h: nat, m: Mode, path: Path, x: Tree, j: nat, n: InnerNode,
                  node: LeafNode, right: LeafNode)
    returns (q: Tree, a: Tree, c: Tree, e: Effect)
    requires Short(s, t, h, m, path, x) && x.Leaf?
    requires path[|path| - 1].page in s.inners && n == s.inners[path[|path| - 1].page] && j == path[|path| - 1].idx
    requires j < |n.keys| && j + 1 < |n.children| && n.children[j] in s.leaves && n.children[j + 1] in s.leaves
    requires node == s.leaves[n.children[j]] && right == s.leaves[n.children[j + 1]]
    requires m.caps.leaf / 2 < |right.keys| == |right.refs|
    requires var p := Sub(t, Up(path));
             p.Node? && j < |p.kids| && (j > 0 ==> |p.kids[j - 1].keys| <= m.caps.leaf / 2)
    ensures BorrowFits(s, t, h, m, path, x, q, j, path[|path| - 1].page,
                       LeafNode(node.keys + [n.keys[j]], node.refs + [right.refs[0]]), right.keys[0],
                       LeafNode(right.keys[1..], right.refs[1..]), a, c, e)
    ensures Lends(Sub(t, Up(path)), j, m.caps.leaf / 2, e) && !e.Exact?
    ensures e.Lost? <==> HoldsSeparator(ParentOf(t, path, x), j)
  {
    q := ParentOf(t, path, x);
    BorrowSetup(s, t, h, m, path, x, q, j);
    var u, w := q.kids[j], q.kids[j + 1];
    assert LeafStored(s, n.children[j], u) && LeafStored(s, n.children[j + 1], w);
    a, c := GotRight(u, q.keys[j], w), LentRight(w);
    e := if q.keys[j] in u.keys then Lost(right.keys[0]) else Moved(q.keys[j], right.keys[0], right.refs[0]);
    RightOutcome(s, t, h, m, path, x, q, j, a, right.keys[0], c, e, u, w);
    RightLends(Sub(t, Up(path)), j, m.caps.leaf / 2, e);
  }

  /** The right neighbour lends its first entry in the same way. */
  method BorrowFromRightLeaf(b: BTree, path: Path, ghost t: Tree, ghost m: Mode, ghost x: Tree)
    returns (ghost e: Effect)
    requires ShortIn(b, t, m, path, x) && x.Leaf?
    requires var f := path[|path| - 1];
             && f.page in b.inners && f.idx < |b.inners[f.page].keys| && f.idx + 1 < |b.inners[f.page].children|
             && var c := b.inners[f.page].children;
             && c[f.idx + 1] in b.leaves && |b.leaves[c[f.idx + 1]].keys| > b.caps.leaf / 2
    requires var p, i := Sub(t, Up(path)), path[|path| - 1].idx;
             p.Node? && i < |p.kids| && (i > 0 ==> |p.kids[i - 1].keys| <= b.caps.leaf / 2)
    modifies b
    ensures b.size == old(b.size) && !b.Empty() && Repaired(old(b.tree), b.tree, e)
    ensures Keys(b.tree) == Keys(old(b.tree))
    ensures if e.Lost? then Broken(b) else b.Valid(m)
    ensures Lends(Sub(t, Up(path)), path[|path| - 1].idx, b.caps.leaf / 2, e) && !e.Exact?
    ensures e.Lost? <==> HoldsSeparator(ParentOf(t, path, x), path[|path| - 1].idx)
    ensures b.Foreign() == old(b.Foreign())
  {
    var f := path[|path| - 1];
    var parent, j := b.inners[f.page], f.idx;
    PairStored(b.Maps(), t, b.height, m, path, x, j, parent);
    var node, right := b.leaves[parent.children[j]], b.leaves[parent.children[j + 1]];
    ghost var q, a, c;
    q, a, c, e := RightPlan(b.Maps(), t, b.height, m, path, x, j, parent, node, right);
    BorrowLeaf(b, f.page, j, LeafNode(node.keys + [parent.keys[j]], node.refs + [right.refs[0]]), right.keys[0],
               LeafNode(right.keys[1..], right.refs[1..]), t, m, path, x, q, e, a, c);
  }

  /** The pages of a merge: the right leaf's entries appended to the left one, the separator
      and the right child taken from the parent, and the right page released. */
  method MergePages(b: BTree, page: PageId, j: nat) returns (st: Status)
    requires b.SpaceOk() && page in b.inners && page !in b.leaves && j < |b.inners[page].keys|
    requires j + 1 < |b.inners[page].children|
    requires var c := b.inners[page].children;
             c[j] in b.leaves && c[j + 1] in b.leaves && c[j + 1] !in b.inners && c[j] != c[j + 1]
    modifies b`leaves, b`inners, b.space.pages, b.space.freeMap
    ensures var c, ls := old(b.inners)[page].children, old(b.leaves);
            var merged := LeafAssign(ls[c[j]].keys + ls[c[j + 1]].keys, ls[c[j]].refs + ls[c[j + 1]].refs, b.caps.leaf);
            && (merged.None? ==> st == Rejected && b.leaves == ls && b.inners == old(b.inners) && b.SpaceOk())
            && (merged.Some? ==>
                  && st == Done && b.SpaceOk()
                  && b.leaves == ls[c[j] := merged.value] - {c[j + 1]}
                  && b.inners ==
                    old(b.inners)[page := InnerNode(RemoveAt(old(b.inners)[page].keys, j), RemoveAt(c, j + 1))])
    ensures b.Foreign() == old(b.Foreign())
  {
    var parent := b.inners[page];
    var c := parent.children;
    var u, w := b.leaves[c[j]], b.leaves[c[j + 1]];
    var merged := LeafAssign(u.keys + w.keys, u.refs + w.refs, b.caps.leaf);
    if merged.None? { return Rejected; }
    b.leaves := b.leaves[c[j] := merged.value];
    b.inners := b.inners[page := InnerNode(RemoveAt(parent.keys, j), RemoveAt(c, j + 1))];
    assert b.inners.Keys == old(b.inners).Keys && b.leaves.Keys == old(b.leaves).Keys;
    ReleasePage(b, c[j + 1]);
    return Done;
  }

  lemma {:induction false} ProperSub(t: Tree, up: Path)
    requires ValidPath(t, up) && up != []
    ensures Pages(Sub(t, up)) + multiset{t.id} <= Pages(t)
    decreases |up|
  {
    var p, i := Sub(t, up[..|up| - 1]), up[|up| - 1].idx;
    BagsAt(p.kids, i, OwnPage);
    if |up| > 1 { ProperSub(t, up[..|up| - 1]); }
  }

  /** What a merge relies on: both leaves are there, and they fit together. */
  lemma MergeSetup(s: Store, t: Tree, h: nat, m: Mode, path: Path, x: Tree, q: Tree, j: nat)
    requires Short(s, t, h, m, path, x) && x.Leaf? && q == ParentOf(t, path, x)
    requires var f := path[|path| - 1];
             && f.page in s.inners && j + 1 < |s.inners[f.page].children|
             && (j + 1 == f.idx || (j == f.idx && j < |s.inners[f.page].keys|))
             && var o := s.inners[f.page].children[if j == f.idx then j + 1 else j];
             o in s.leaves && |s.leaves[o].keys| <= m.caps.leaf / 2
    ensures q.Node? && path[|path| - 1].page == q.id && q.id in s.inners && q.id !in s.leaves
    ensures s.inners[q.id].keys == q.keys && |s.inners[q.id].children| == |q.kids| && j < |q.keys| && j + 1 < |q.kids|
    ensures var c := s.inners[q.id].children;
            && c[j] == q.kids[j].id && c[j + 1] == q.kids[j + 1].id
            && c[j] in s.leaves && c[j + 1] in s.leaves && c[j + 1] !in s.inners && c[j] != c[j + 1]
            && q.kids[j] == Leaf(c[j], s.leaves[c[j]].keys, s.leaves[c[j]].refs)
            && q.kids[j + 1] == Leaf(c[j + 1], s.leaves[c[j + 1]].keys, s.leaves[c[j + 1]].refs)
    ensures var o := if j == path[|path| - 1].idx then j + 1 else j; |q.kids[o].keys| <= m.caps.leaf / 2
  {
    ParentFacts(s, t, h, m, path, x, q);
    PairFacts(t, h, m, path, x, q, j);
    OwnsDistinct(s, Replace(t, path, x), multiset{});
    DistinctSub(Replace(t, path, x), Up(path));
    DistinctKids(q, j, j + 1);
    assert q.kids[j].id in Pages(q.kids[j]) && q.kids[j + 1].id in Pages(q.kids[j + 1]);
  }

  /** The good tree t with the parent of the short leaf replaced by q', which has a key less. */
  ghost predicate FusedTree(t: Tree, h: nat, m: Mode, path: Path, q': Tree) {
    && Ok(t, h, Inf, Inf, m, true) && m.fill && m.caps.leaf >= 2 && m.caps.inner >= 2
    && path != [] && ValidPath(t, path) && |path| < h && Sub(t, Up(path)).Node?
    && q'.Node? && q'.id == Sub(t, Up(path)).id && |q'.keys| + 1 == |Sub(t, Up(path)).keys|
    && KidsOk(q'.keys, q'.kids, h - |path|, LoAt(t, Up(path)), HiAt(t, Up(path)), m)
  }

  ghost predicate FusedStored(s: Store, t: Tree, path: Path, q': Tree)
    requires path != [] && ValidPath(t, path)
  {
    Represents(s, Replace(t, Up(path), q')) && Owns(s, Pages(Replace(t, Up(path), q')))
  }

  /** Two leaves of b have been merged under the parent, which is now q'. */
  ghost predicate FusedIn(b: BTree, t: Tree, m: Mode, path: Path, q': Tree)
    reads b, b.space, b.space.pages, b.space.freeMap
  {
    && b.SpaceOk() && m.caps == b.caps && !b.Empty() && b.rootId == t.id
    && FusedTree(t, b.height, m, path, q') && FusedStored(b.Maps(), t, path, q')
    && b.tree == Replace(t, Up(path), q')
  }

  lemma MergeDone(s: Store, t: Tree, h: nat, m: Mode, path: Path, x: Tree, q: Tree, j: nat, a: Tree)
    requires Short(s, t, h, m, path, x) && x.Leaf? && q == ParentOf(t, path, x) && q.Node?
    requires j + 1 == path[|path| - 1].idx || (j == path[|path| - 1].idx && j < |q.keys|)
    requires j < |q.keys| && j + 1 < |q.kids| && q.kids[j].Leaf? && q.kids[j + 1].Leaf? && q.id in s.inners
    requires j + 1 < |s.inners[q.id].children|
    requires var o := if j == path[|path| - 1].idx then j + 1 else j; |q.kids[o].keys| <= m.caps.leaf / 2
    requires a == Merged(q.kids[j], q.kids[j + 1])
    ensures |a.keys| <= m.caps.leaf && |a.keys| == |a.refs|
    ensures var q' := Fused(q, j, a);
            && FusedTree(t, h, m, path, q') && FusedStored(MergeStore(s, q, j, a), t, path, q')
            && SameSearches(Replace(t, path, x), Replace(t, Up(path), q'))
            && Keys(Replace(t, Up(path), q')) + multiset{q.keys[j]} == Keys(Replace(t, path, x))
  {
    MergeReady(s, t, h, m, path, x, q, j, a);
    FusedKeys(q, j, a);
    KeysAbove(t, path, x, q, Fused(q, j, a), multiset{q.keys[j]});
  }

  lemma MergeStoreIs(s: Store, q: Tree, j: nat, a: Tree, c: seq<PageId>, s': Store)
    requires q.Node? && j < |q.keys| && j + 1 < |q.kids| && q.id in s.inners && a.Leaf?
    requires s.inners[q.id] == InnerNode(q.keys, c) && j + 1 < |c| && c[j] == a.id && c[j + 1] == q.kids[j + 1].id
    requires s'.leaves == s.leaves[c[j] := LeafNode(a.keys, a.refs)] - {c[j + 1]}
    requires s'.inners == s.inners[q.id := InnerNode(RemoveAt(q.keys, j), RemoveAt(c, j + 1))]
    ensures s' == MergeStore(s, q, j, a)
  {
  }

  method FuseLeaves(b: BTree, path: Path, j: nat, ghost t: Tree, ghost m: Mode, ghost x: Tree)
    returns (st: Status, ghost q': Tree)
    requires ShortIn(b, t, m, path, x) && x.Leaf?
    requires var f := path[|path| - 1];
             && f.page in b.inners && j + 1 < |b.inners[f.page].children|
             && (j + 1 == f.idx || (j == f.idx && j < |b.inners[f.page].keys|))
             && var o := b.inners[f.page].children[if j == f.idx then j + 1 else j];
             o in b.leaves && |b.leaves[o].keys| <= b.caps.leaf / 2
    modifies b, b.space.pages, b.space.freeMap
    ensures st == Done && b.size == old(b.size) && b.height == old(b.height)
    ensures FusedIn(b, t, m, path, q') && SameSearches(old(b.tree), b.tree)
    ensures Sub(t, Up(path)).Node? && j < |Sub(t, Up(path)).keys|
    ensures Keys(b.tree) + multiset{Sub(t, Up(path)).keys[j]} == Keys(old(b.tree))
    ensures b.Foreign() == old(b.Foreign())
  {
    var f := path[|path| - 1];
    ghost var s, q := b.Maps(), ParentOf(t, path, x);
    MergeSetup(s, t, b.height, m, path, x, q, j);
    ghost var a := Merged(q.kids[j], q.kids[j + 1]);
    MergeDone(s, t, b.height, m, path, x, q, j, a);
    q' := Fused(q, j, a);
    st := MergeAndAdopt(b, f.page, j, q, a, Replace(t, Up(path), q'));
  }

  method MergeAndAdopt(b: BTree, page: PageId, j: nat, ghost q: Tree, ghost a: Tree, ghost t: Tree) returns (st: Status)
    requires b.SpaceOk() && page in b.inners && page !in b.leaves && j < |b.inners[page].keys|
    requires j + 1 < |b.inners[page].children|
    requires var c := b.inners[page].children;
             && c[j] in b.leaves && c[j + 1] in b.leaves && c[j + 1] !in b.inners && c[j] != c[j + 1]
             && q.Node? && page == q.id && b.inners[page].keys == q.keys && j + 1 < |q.kids|
             && c[j + 1] == q.kids[j + 1].id
             && a == Leaf(c[j], b.leaves[c[j]].keys + b.leaves[c[j + 1]].keys,
                          b.leaves[c[j]].refs + b.leaves[c[j + 1]].refs)
             && |a.keys| == |a.refs| && |a.keys| <= b.caps.leaf
    modifies b`leaves, b`inners, b`tree, b.space.pages, b.space.freeMap
    ensures st == Done && b.SpaceOk() && b.Maps() == MergeStore(old(b.Maps()), q, j, a) && b.tree == t
    ensures b.Foreign() == old(b.Foreign())
  {
    ghost var s, c := b.Maps(), b.inners[page].children;
    st := MergePages(b, page, j);
    MergeStoreIs(s, q, j, a, c, b.Maps());
    b.tree := t;
  }

  /** The root lost its last key: its one child becomes the root and the height drops. */
  method CollapseRoot(b: BTree, ghost t: Tree, ghost m: Mode, ghost path: Path, ghost q': Tree)
    requires FusedIn(b, t, m, path, q') && Up(path) == [] && |q'.keys| == 0
    modifies b, b.space.pages, b.space.freeMap
    ensures b.Valid(m) && !b.Empty() && b.size == old(b.size) && SameSearches(old(b.tree), b.tree)
    ensures b.height + 1 == old(b.height) && Keys(b.tree) == Keys(old(b.tree))
    ensures b.Foreign() == old(b.Foreign())
  {
    OnlyKidKeys(q');
    CollapseReady(b.Maps(), b.tree, b.height, m, q');
    var parent := b.rootId;
    var root := b.inners[parent].children[0];
    var inners := b.inners - {parent};
    var ok := b.space.FreePage(parent);
    b.Adopt(b.leaves, inners, root, b.height - 1, q'.kids[0], m);
  }

  /** The top page of a merged parent is the root exactly when nothing lies above it. */
  lemma RootPage(s: Store, t: Tree, up: Path, q': Tree)
    requires ValidPath(t, up) && q'.id == Sub(t, up).id && Owns(s, Pages(Replace(t, up, q')))
    ensures q'.id == t.id <==> up == []
  {
    if up != [] {
      var t' := Replace(t, up, q');
      SubReplace(t, up, q');
      ProperSub(t', up);
      assert q'.id in Pages(q');
      assert Pages(t')[t'.id] <= 1;
    }
  }

  /** The node at up, not the root, lost a key it needed, and no neighbour has one to spare. */
  predicate Stuck(t: Tree, up: Path, caps: Caps)
    requires ValidPath(t, up)
  {
    && up != [] && |Sub(t, up).keys| <= caps.inner / 2 && Sub(t, Up(up)).Node?
    && !HasSpare(Sub(t, Up(up)).kids, up[|up| - 1].idx, caps.inner / 2)
  }

  /** Collapses the root when it has no key left, stops when the parent has enough, and else
      goes on to repair the parent. */
  method AfterMerge(b: BTree, path: Path, ghost t: Tree, ghost m: Mode, ghost q': Tree) returns (st: Status)
    requires FusedIn(b, t, m, path, q') && path[|path| - 1].page == q'.id
    modifies b, b.space.pages, b.space.freeMap
    ensures b.size == old(b.size) && !b.Empty() && (st == Done || st == Rejected)
    ensures st == Rejected <==> Stuck(t, Up(path), b.caps)
    ensures b.height == if |path| == 1 && |q'.keys| == 0 then old(b.height) - 1 else old(b.height)
    ensures b.Valid(if st == Done then m else NoFill(m)) && SameSearches(old(b.tree), b.tree)
    ensures (st == Rejected ==> !b.Valid(m)) && Keys(b.tree) == Keys(old(b.tree))
    ensures b.Foreign() == old(b.Foreign())
  {
    var page := path[|path| - 1].page;
    RootPage(b.Maps(), t, Up(path), q');
    MergedParentPage(b.Maps(), t, Up(path), q');
    if page == b.rootId && |b.inners[page].keys| == 0 {
      CollapseRoot(b, t, m, path, q');
      return Done;
    }
    if page != b.rootId && |b.inners[page].keys| < b.caps.inner / 2 {
      NowShort(b.Maps(), t, b.height, m, path, q');
      st := FixInternalUnderflow(b, Up(path), t, m, q');
      return;
    }
    KeepParent(b, t, m, path, q');
    return Done;
  }

  /** The parent has enough keys left, or is the root and has one: nothing else to do. */
  method KeepParent(b: BTree, ghost t: Tree, ghost m: Mode, ghost path: Path, ghost q': Tree)
    requires FusedIn(b, t, m, path, q')
    requires if Up(path) == [] then |q'.keys| > 0 else |q'.keys| >= b.caps.inner / 2
    modifies b
    ensures b.Valid(m) && !b.Empty() && b.size == old(b.size) && b.height == old(b.height)
    ensures b.tree == old(b.tree) && b.Foreign() == old(b.Foreign())
  {
    SubOk(t, b.height, m, Up(path));
    ParentOk(t, b.height, m, path, q');
    SubReplace(t, Up(path), q');
    b.Adopt(b.leaves, b.inners, b.rootId, b.height, Replace(t, Up(path), q'), m);
  }

  lemma MergedParentPage(s: Store, t: Tree, up: Path, q': Tree)
    requires ValidPath(t, up) && q'.Node? && q'.id == Sub(t, up).id && Represents(s, Replace(t, up, q'))
    ensures q'.id in s.inners && s.inners[q'.id].keys == q'.keys
  {
    SubReplace(t, up, q');
    SubRepresents(s, Replace(t, up, q'), up);
  }

  // ---------------------------------------------------------------- inner nodes

  /** Child i of q is an inner node whose page agrees with it. */
  ghost predicate InnerStored(s: Store, q: Tree, i: nat, m: Mode) {
    && q.Node? && q.id in s.inners && i < |q.kids| == |s.inners[q.id].children|
    && var c := q.kids[i];
    && c.Node? && |c.kids| == |c.keys| + 1 && |c.keys| <= m.caps.inner
    && s.inners[q.id].children[i] == c.id && c.id in s.inners
    && s.inners[c.id].keys == c.keys && |s.inners[c.id].children| == |c.kids|
  }

  /** Children j and j + 1 of the short node's parent q are inner nodes whose pages agree with
      them. */
  ghost predicate InnerPair(s: Store, q: Tree, j: nat, page: PageId, m: Mode) {
    && q.Node? && q.id == page && page in s.inners && s.inners[page].keys == q.keys && j < |q.keys|
    && InnerStored(s, q, j, m) && InnerStored(s, q, j + 1, m)
  }

  /** The short inner node and a neighbour, and how many keys the neighbour's page has. */
  lemma InnerNeighbours(s: Store, t: Tree, h: nat, m: Mode, path: Path, x: Tree, q: Tree, f: Frame, p: Tree)
    requires Short(s, t, h, m, path, x) && x.Node? && q == ParentOf(t, path, x)
    requires f == path[|path| - 1] && p == Sub(t, Up(path))
    ensures p.Node? && f.page in s.inners && s.inners[f.page].keys == p.keys && 1 <= |p.keys|
    ensures |s.inners[f.page].children| == |p.kids| == |p.keys| + 1 && f.idx < |p.kids|
    ensures Replace(t, path, x).id == t.id && |x.keys| + 1 == m.caps.inner / 2
    ensures f.idx > 0 ==>
              && InnerPair(s, q, f.idx - 1, f.page, m) && q.kids[f.idx] == x && q.kids[f.idx - 1] == p.kids[f.idx - 1]
    ensures f.idx < |p.keys| ==>
              && InnerPair(s, q, f.idx, f.page, m) && q.kids[f.idx] == x && q.kids[f.idx + 1] == p.kids[f.idx + 1]
  {
    ParentFacts(s, t, h, m, path, x, q);
    SubOk(t, h, m, Up(path));
    forall i | 0 <= i < |q.kids| ensures InnerStored(s, q, i, m) {
      if i != f.idx {
        OkInPlace(p.kids[i], h - |path|, LoOf(p.keys, LoAt(t, Up(path)), i), HiOf(p.keys, HiAt(t, Up(path)), i), m,
                  false);
      }
      assert s.inners[q.id].children[i] == q.kids[i].id && Represents(s, q.kids[i]);
    }
  }

  /** p' is p after child i got a key through the parent: the last one of its left neighbour
      becomes the separator if that neighbour has more than n, else the first one of its right
      neighbour does. */
  predicate InnerLends(p: Tree, i: nat, n: nat, p': Tree) {
    && p.Node? && p'.Node? && |p'.kids| == |p.kids|
    && if 0 < i <= |p.kids| && |p.kids[i - 1].keys| > n
       then && i - 1 < |p.keys| && p'.keys == p.keys[i - 1 := p.kids[i - 1].keys[|p.kids[i - 1].keys| - 1]]
            && p'.kids[i - 1].keys == p.kids[i - 1].keys[..|p.kids[i - 1].keys| - 1]
       else && i < |p.keys| && i + 1 < |p.kids| && |p.kids[i + 1].keys| > n
            && p'.keys == p.keys[i := p.kids[i + 1].keys[0]] && p'.kids[i + 1].keys == p.kids[i + 1].keys[1..]
  }

  /** The short node at path got its key that way. */
  ghost predicate LentThrough(t: Tree, path: Path, n: nat, t': Tree)
    requires path != [] && ValidPath(t, path)
  {
    exists p' :: t' == Replace(t, Up(path), p') && InnerLends(Sub(t, Up(path)), path[|path| - 1].idx, n, p')
  }

  lemma TurnedLends(p: Tree, i: nat, n: nat, x: Tree, q: Tree, j: nat, cut: nat)
    requires p.Node? && i < |p.kids| && q == WithKid(p, i, x) && j < |q.keys| && j + 1 < |q.kids|
    requires q.kids[j].Node? && q.kids[j + 1].Node?
    requires |q.kids[j].kids| == |q.kids[j].keys| + 1 && |q.kids[j + 1].kids| == |q.kids[j + 1].keys| + 1
    requires if j + 1 == i then |p.kids[j].keys| > n && cut + 1 == |q.kids[j].keys|
             else && j == i && |p.kids[j + 1].keys| > n && cut == |q.kids[j].keys| + 1
                  && (i > 0 ==> |p.kids[i - 1].keys| <= n)
    ensures InnerLends(p, i, n, Turned(q, j, cut))
  {
    var u, sep, w := q.kids[j], q.keys[j], q.kids[j + 1];
    var ks := RunKeys(u, sep, w);
    if j + 1 == i {
      assert ks[cut] == u.keys[cut] && ks[..cut] == u.keys[..cut];
    } else {
      assert ks[cut] == w.keys[0] && ks[cut + 1..] == w.keys[1..];
    }
  }

  /** Rotates through the parent if a neighbour has a key to spare, the left one first, else
      tries to merge and is refused. */
  method FixInternalUnderflow(b: BTree, path: Path, ghost t: Tree, ghost m: Mode, ghost x: Tree) returns (st: Status)
    requires ShortIn(b, t, m, path, x) && x.Node?
    modifies b
    ensures b.size == old(b.size) && b.height == old(b.height) && !b.Empty() && (st == Done || st == Rejected)
    ensures Sub(t, Up(path)).Node?
    ensures st == Done <==> HasSpare(Sub(t, Up(path)).kids, path[|path| - 1].idx, b.caps.inner / 2)
    ensures b.Valid(if st == Done then m else NoFill(m)) && SameSearches(old(b.tree), b.tree)
    ensures (st == Rejected ==> !b.Valid(m)) && Keys(b.tree) == Keys(old(b.tree))
    ensures if st == Done then LentThrough(t, path, b.caps.inner / 2, b.tree) else b.tree == old(b.tree)
    ensures b.Foreign() == old(b.Foreign())
  {
    var f := path[|path| - 1];
    ghost var p, q := Sub(t, Up(path)), ParentOf(t, path, x);
    InnerNeighbours(b.Maps(), t, b.height, m, path, x, q, f, p);
    var parent := b.inners[f.page];
    var minimum := b.caps.inner / 2;
    var left := f.idx > 0 && |b.inners[parent.children[f.idx - 1]].keys| > minimum;
    var right := f.idx + 1 <= |parent.keys| && |b.inners[parent.children[f.idx + 1]].keys| > minimum;
    if left || right {
      LendInner(b, path, left, t, m, x);
      return Done;
    }
    st := RefuseMerge(b, f.page, if f.idx > 0 then f.idx - 1 else f.idx, path, q, t, m, x);
  }

  /** The left neighbour lends a key if it can, else the right one. */
  method LendInner(b: BTree, path: Path, left: bool, ghost t: Tree, ghost m: Mode, ghost x: Tree)
    requires ShortIn(b, t, m, path, x) && x.Node? && Sub(t, Up(path)).Node?
    requires var p, i := Sub(t, Up(path)), path[|path| - 1].idx;
             && (left <==> 0 < i <= |p.kids| && |p.kids[i - 1].keys| > b.caps.inner / 2)
             && HasSpare(p.kids, i, b.caps.inner / 2)
    modifies b
    ensures b.Valid(m) && !b.Empty() && b.size == old(b.size) && b.height == old(b.height)
    ensures SameSearches(old(b.tree), b.tree) && Keys(b.tree) == Keys(old(b.tree))
    ensures LentThrough(t, path, b.caps.inner / 2, b.tree)
    ensures b.Foreign() == old(b.Foreign())
  {
    var f := path[|path| - 1];
    ghost var p, q := Sub(t, Up(path)), ParentOf(t, path, x);
    InnerNeighbours(b.Maps(), t, b.height, m, path, x, q, f, p);
    var parent := b.inners[f.page];
    var j := if left then f.idx - 1 else f.idx;
    var n := |b.inners[parent.children[j]].keys|;
    var cut := if left then n - 1 else n + 1;
    TurnedLends(p, f.idx, b.caps.inner / 2, x, q, j, cut);
    Rotate(b, f.page, j, cut, t, m, path, x, q);
  }

  /** No neighbour has a key to spare: the merge is refused and the node stays short. */
  method RefuseMerge(b: BTree, page: PageId, j: nat, ghost path: Path, ghost q: Tree, ghost t: Tree, ghost m: Mode,
                     ghost x: Tree) returns (st: Status)
    requires ShortIn(b, t, m, path, x) && x.Node? && InnerPair(b.Maps(), q, j, page, m) && b.tree.id == t.id
    ensures st == Rejected && b.Valid(NoFill(m)) && !b.Valid(m) && !b.Empty()
  {
    st := MergeInner(b, page, j, q, m);
    ShortStillOrdered(b.Maps(), t, b.height, m, path, x);
    ShortNotFilled(b.Maps(), t, b.height, m, path, x);
  }

  /** Merging inner nodes j and j + 1 is refused: the children assembled are one too few. */
  method MergeInner(b: BTree, page: PageId, j: nat, ghost q: Tree, ghost m: Mode) returns (st: Status)
    requires InnerPair(b.Maps(), q, j, page, m)
    ensures st == Rejected
  {
    var parent := b.inners[page];
    var l, r := b.inners[parent.children[j]], b.inners[parent.children[j + 1]];
    InnerMergeRefused(l, parent.keys[j], r);
    var merged := InnerAssign(l.keys + [parent.keys[j]] + r.keys, l.children + r.children[1..], b.caps.inner);
    assert merged.None?;
    return Rejected;
  }

  /** q with the keys and children of inner neighbours j and j + 1 cut at key i of their run. */
  function Turned(q: Tree, j: nat, i: nat): Tree
    requires q.Node? && j < |q.keys| && j + 1 < |q.kids| && q.kids[j].Node? && q.kids[j + 1].Node?
    requires i < |RunKeys(q.kids[j], q.keys[j], q.kids[j + 1])| && i < |RunKids(q.kids[j], q.kids[j + 1])|
  {
    var u, sep, w := q.kids[j], q.keys[j], q.kids[j + 1];
    Rotated(q, j, CutLeft(u, sep, w, i), RunKeys(u, sep, w)[i], CutRight(u, sep, w, i))
  }

  /** Cuts the keys and children of inner neighbours j and j + 1 at another place: one to the
      left when the left one lends, one to the right when the right one does. */
  method Rotate(b: BTree, page: PageId, j: nat, i: nat, ghost t: Tree, ghost m: Mode, ghost path: Path, ghost x: Tree,
                ghost q: Tree)
    requires ShortIn(b, t, m, path, x) && x.Node? && q == ParentOf(t, path, x)
    requires j + 1 == path[|path| - 1].idx || j == path[|path| - 1].idx
    requires InnerPair(b.Maps(), q, j, page, m)
    requires var n := |q.kids[j].keys| + |q.kids[j + 1].keys|;
             && i <= n && b.caps.inner / 2 <= i <= b.caps.inner
             && b.caps.inner / 2 <= n - i <= b.caps.inner
    modifies b
    ensures b.Valid(m) && !b.Empty() && b.size == old(b.size) && b.height == old(b.height)
    ensures SameSearches(old(b.tree), b.tree) && Keys(b.tree) == Keys(old(b.tree))
    ensures b.tree == Replace(t, Up(path), Turned(q, j, i))
    ensures b.Foreign() == old(b.Foreign())
  {
    var parent := b.inners[page];
    var ui, wi := parent.children[j], parent.children[j + 1];
    var ks := b.inners[ui].keys + [parent.keys[j]] + b.inners[wi].keys;
    var c := b.inners[ui].children + b.inners[wi].children;
    var inners := b.inners[ui := InnerNode(ks[..i], c[..i + 1])][wi := InnerNode(ks[i + 1..], c[i + 1..])]
                          [page := InnerNode(parent.keys[j := ks[i]], parent.children)];
    ghost var u, sep, w := q.kids[j], q.keys[j], q.kids[j + 1];
    ghost var s' := RotationStore(b.Maps(), q, j, i, b.inners[u.id].children, b.inners[w.id].children);
    assert Store(b.leaves, inners) == s';
    RotationReady(b.Maps(), t, b.height, m, path, x, q, j, i, s');
    RotationKeys(t, path, x, q, j, i);
    b.Adopt(b.leaves, inners, b.rootId, b.height, Replace(t, Up(path), Turned(q, j, i)), m);
  }

  // ---------------------------------------------------------------- erase

  /** A leaf one key short borrows from the left if it can, else from the right, else merges. */
  method FixLeafUnderflow(b: BTree, path: Path, ghost t: Tree, ghost m: Mode, ghost x: Tree)
    returns (st: Status, ghost e: Effect)
    requires ShortIn(b, t, m, path, x) && x.Leaf?
    modifies b, b.space.pages, b.space.freeMap
    ensures b.size == old(b.size) && !b.Empty() && (st == Done || st == Rejected)
    ensures Lends(Sub(t, Up(path)), path[|path| - 1].idx, b.caps.leaf / 2, e)
    ensures var p, i := Sub(t, Up(path)), path[|path| - 1].idx;
            e.Lost? <==> !e.Exact? && HoldsSeparator(ParentOf(t, path, x), PairIndex(p, i, b.caps.leaf / 2))
    ensures st == Rejected <==> e.Exact? && Stuck(t, Up(path), b.caps)
    ensures if e.Lost? then Broken(b) else b.Valid(if st == Done then m else NoFill(m))
    ensures st == Rejected ==> !b.Valid(m)
    ensures Repaired(old(b.tree), b.tree, e)
    ensures Keys(b.tree) + MergeDrops(Sub(t, Up(path)), path[|path| - 1].idx, b.caps.leaf / 2) == Keys(old(b.tree))
    ensures b.Foreign() == old(b.Foreign())
  {
    var f := path[|path| - 1];
    LeafNeighbours(b.Maps(), t, b.height, m, path, x, f, Sub(t, Up(path)));
    var parent := b.inners[f.page];
    var minimum := b.caps.leaf / 2;
    var left := f.idx > 0 && |b.leaves[parent.children[f.idx - 1]].keys| > minimum;
    var right := f.idx + 1 <= |parent.keys| && |b.leaves[parent.children[f.idx + 1]].keys| > minimum;
    if left || right {
      e := BorrowFromNeighbour(b, path, left, t, m, x);
      NoneDropped(Sub(t, Up(path)), f.idx, minimum, Keys(b.tree));
      return Done, e;
    }
    e := Exact;
    st := MergeLeaves(b, path, t, m, x);
  }

  lemma NoneDropped(p: Tree, i: nat, n: nat, ks: multiset<Key>)
    requires p.Node? && HasSpare(p.kids, i, n)
    ensures ks + MergeDrops(p, i, n) == ks
  {
  }

  /** The left neighbour lends if it can, else the right one. */
  method BorrowFromNeighbour(b: BTree, path: Path, left: bool, ghost t: Tree, ghost m: Mode, ghost x: Tree)
    returns (ghost e: Effect)
    requires ShortIn(b, t, m, path, x) && x.Leaf? && Sub(t, Up(path)).Node?
    requires var p, i := Sub(t, Up(path)), path[|path| - 1].idx;
             && (left <==> 0 < i <= |p.kids| && |p.kids[i - 1].keys| > b.caps.leaf / 2)
             && HasSpare(p.kids, i, b.caps.leaf / 2)
    modifies b
    ensures b.size == old(b.size) && !b.Empty() && Repaired(old(b.tree), b.tree, e)
    ensures Keys(b.tree) == Keys(old(b.tree))
    ensures if e.Lost? then Broken(b) else b.Valid(m)
    ensures Lends(Sub(t, Up(path)), path[|path| - 1].idx, b.caps.leaf / 2, e) && !e.Exact?
    ensures var p, i := Sub(t, Up(path)), path[|path| - 1].idx;
            e.Lost? <==> HoldsSeparator(ParentOf(t, path, x), PairIndex(p, i, b.caps.leaf / 2))
    ensures b.Foreign() == old(b.Foreign())
  {
    LeafNeighbours(b.Maps(), t, b.height, m, path, x, path[|path| - 1], Sub(t, Up(path)));
    if left {
      e := BorrowFromLeftLeaf(b, path, t, m, x);
    } else {
      e := BorrowFromRightLeaf(b, path, t, m, x);
    }
  }

  /** The merge, and what it sets off in the parent. */
  method MergeLeaves(b: BTree, path: Path, ghost t: Tree, ghost m: Mode, ghost x: Tree) returns (st: Status)
    requires ShortIn(b, t, m, path, x) && x.Leaf? && Sub(t, Up(path)).Node?
    requires !HasSpare(Sub(t, Up(path)).kids, path[|path| - 1].idx, b.caps.leaf / 2)
    modifies b, b.space.pages, b.space.freeMap
    ensures b.size == old(b.size) && !b.Empty() && (st == Done || st == Rejected)
    ensures st == Rejected <==> Stuck(t, Up(path), b.caps)
    ensures b.Valid(if st == Done then m else NoFill(m)) && SameSearches(old(b.tree), b.tree)
    ensures st == Rejected ==> !b.Valid(m)
    ensures Keys(b.tree) + MergeDrops(Sub(t, Up(path)), path[|path| - 1].idx, b.caps.leaf / 2) == Keys(old(b.tree))
    ensures b.Foreign() == old(b.Foreign())
  {
    var f := path[|path| - 1];
    var j := if f.idx > 0 then f.idx - 1 else f.idx;
    MergeSide(b.Maps(), t, b.height, m, path, x, j);
    st := MergePair(b, path, j, t, m, x);
  }

  /** The pair that merges: the leaf and its left neighbour if it has one, else its right one. */
  lemma MergeSide(s: Store, t: Tree, h: nat, m: Mode, path: Path, x: Tree, j: nat)
    requires Short(s, t, h, m, path, x) && x.Leaf? && Sub(t, Up(path)).Node?
    requires !HasSpare(Sub(t, Up(path)).kids, path[|path| - 1].idx, m.caps.leaf / 2)
    requires j == if path[|path| - 1].idx > 0 then path[|path| - 1].idx - 1 else path[|path| - 1].idx
    ensures var f := path[|path| - 1];
            && f.page in s.inners && j + 1 < |s.inners[f.page].children|
            && (j + 1 == f.idx || (j == f.idx && j < |s.inners[f.page].keys|))
            && var o := s.inners[f.page].children[if j == f.idx then j + 1 else j];
            o in s.leaves && |s.leaves[o].keys| <= m.caps.leaf / 2
    ensures var p := Sub(t, Up(path));
            j < |p.keys| && MergeDrops(p, path[|path| - 1].idx, m.caps.leaf / 2) == multiset{p.keys[j]}
  {
    LeafNeighbours(s, t, h, m, path, x, path[|path| - 1], Sub(t, Up(path)));
  }

  method MergePair(b: BTree, path: Path, j: nat, ghost t: Tree, ghost m: Mode, ghost x: Tree) returns (st: Status)
    requires ShortIn(b, t, m, path, x) && x.Leaf?
    requires var f := path[|path| - 1];
             && f.page in b.inners && j + 1 < |b.inners[f.page].children|
             && (j + 1 == f.idx || (j == f.idx && j < |b.inners[f.page].keys|))
             && var o := b.inners[f.page].children[if j == f.idx then j + 1 else j];
             o in b.leaves && |b.leaves[o].keys| <= b.caps.leaf / 2
    modifies b, b.space.pages, b.space.freeMap
    ensures b.size == old(b.size) && !b.Empty() && (st == Done || st == Rejected)
    ensures st == Rejected <==> Stuck(t, Up(path), b.caps)
    ensures b.Valid(if st == Done then m else NoFill(m)) && SameSearches(old(b.tree), b.tree)
    ensures st == Rejected ==> !b.Valid(m)
    ensures Sub(t, Up(path)).Node? && j < |Sub(t, Up(path)).keys|
    ensures Keys(b.tree) + multiset{Sub(t, Up(path)).keys[j]} == Keys(old(b.tree))
    ensures b.Foreign() == old(b.Foreign())
  {
    ghost var q';
    st, q' := FuseLeaves(b, path, j, t, m, x);
    st := AfterMerge(b, path, t, m, q');
  }

  /** The neighbours of a short leaf are leaves whose pages agree with the tree. */
  lemma LeafNeighbours(s: Store, t: Tree, h: nat, m: Mode, path: Path, x: Tree, f: Frame, p: Tree)
    requires Short(s, t, h, m, path, x) && x.Leaf? && f == path[|path| - 1] && p == Sub(t, Up(path))
    ensures p.Node? && f.page in s.inners && s.inners[f.page].keys == p.keys && 1 <= |p.keys|
    ensures |s.inners[f.page].children| == |p.kids| == |p.keys| + 1 && f.idx < |p.kids|
    ensures f.idx > 0 ==> PageAgrees(s, s.inners[f.page].children[f.idx - 1], p.kids[f.idx - 1])
    ensures f.idx + 1 < |p.kids| ==> PageAgrees(s, s.inners[f.page].children[f.idx + 1], p.kids[f.idx + 1])
  {
    var q := ParentOf(t, path, x);
    ParentFacts(s, t, h, m, path, x, q);
    SubOk(t, h, m, Up(path));
    forall i | 0 <= i < |p.kids| ensures p.kids[i].Leaf? {
      assert Ok(p.kids[i], 1, LoOf(p.keys, LoAt(t, Up(path)), i), HiOf(p.keys, HiAt(t, Up(path)), i), m, false);
    }
  }

  predicate PageAgrees(s: Store, id: PageId, x: Tree) { id in s.leaves && s.leaves[id].keys == x.keys }

  /** The leaf without entry i. */
  function Without(x: Tree, i: nat): Tree
    requires x.Leaf? && |x.keys| == |x.refs| && i < |x.keys|
  {
    Leaf(x.id, RemoveAt(x.keys, i), RemoveAt(x.refs, i))
  }

  /** The map without key, then possibly one misplaced reference. */
  function Erased(before: Option<PageReference>, key: Key, e: Effect, k: Key): Option<PageReference> {
    match e
    case Exact => if k == key then None else before
    case Moved(sep, moved, r) => if k == sep then Some(r) else if k == moved || k == key then None else before
    case Lost(lost) => if k == lost || k == key then None else before
  }

  /** The effect e of erasing key from t is what the searches of t' show, and a misplaced
      reference comes from another key. */
  ghost predicate HasErased(t: Tree, key: Key, t': Tree, e: Effect) {
    && (forall k :: Lookup(t', k) == Erased(Lookup(t, k), key, e, k))
    && (e.Moved? ==> e.key != key && e.sep != e.key && Lookup(t, e.key) == Some(e.ref))
    && (e.Lost? ==> e.key != key && Lookup(t, e.key).Some?)
  }

  lemma WithoutEffect(t: Tree, path: Path, key: Key, i: nat)
    requires ValidPath(t, path) && Routes(t, path, key)
    requires var x := Sub(t, path);
             x.Leaf? && |x.keys| == |x.refs| && Sorted(x.keys) && i < |x.keys| && x.keys[i] == key
    ensures forall k :: Lookup(Replace(t, path, Without(Sub(t, path), i)), k) == if k == key then None else Lookup(t, k)
  {
    var x := Sub(t, path);
    forall k ensures Lookup(Replace(t, path, Without(x, i)), k) == if k == key then None else Lookup(t, k) {
      LookupReplace(t, path, Without(x, i), k);
      LeafRemoveLookup(x.id, x.keys, x.refs, i, k);
      if Routes(t, path, k) { RouteLookup(t, path, k); }
    }
  }

  lemma WithoutKeys(t: Tree, path: Path, i: nat)
    requires ValidPath(t, path)
    requires var x := Sub(t, path); x.Leaf? && |x.keys| == |x.refs| && i < |x.keys|
    ensures Keys(Replace(t, path, Without(Sub(t, path), i))) + multiset{Sub(t, path).keys[i]} == Keys(t)
  {
    var x := Sub(t, path);
    var t' := Replace(t, path, Without(x, i));
    BagReplace(t, path, Without(x, i), OwnKeys);
    KeyRemove(x.keys, i);
    forall k ensures (Keys(t') + multiset{x.keys[i]})[k] == Keys(t)[k] {
      assert (Keys(t') + Keys(x))[k] == (Keys(t) + Keys(Without(x, i)))[k];
      assert (Keys(Without(x, i)) + multiset{x.keys[i]})[k] == Keys(x)[k];
    }
  }

  lemma WithoutInPlace(x: Tree, i: nat, lo: Bound, hi: Bound, m: Mode, root: bool)
    requires x.Leaf? && Ok(x, 1, lo, hi, m, root) && i < |x.keys|
    ensures InPlace(Without(x, i), 1, lo, hi, m)
    ensures !m.fill || root || |x.keys| > m.caps.leaf / 2 ==> Ok(Without(x, i), 1, lo, hi, m, root)
  {
  }

  /** Enough keys remain, or the leaf is the root: nothing else to do. */
  method EraseInLeaf(b: BTree, leaf: PageId, i: nat, ghost path: Path, ghost m: Mode, ghost key: Key)
    requires b.Valid(m) && !b.Empty() && ValidPath(b.tree, path) && Routes(b.tree, path, key)
    requires leaf in b.leaves && i < |b.leaves[leaf].keys| && b.leaves[leaf].keys[i] == key
    requires |b.leaves[leaf].keys| == |b.leaves[leaf].refs|
    requires var x := Sub(b.tree, path); x == Leaf(leaf, b.leaves[leaf].keys, b.leaves[leaf].refs)
    requires path == [] || |b.leaves[leaf].keys| > b.caps.leaf / 2
    modifies b
    ensures b.Valid(m) && !b.Empty() && b.size == old(b.size) && HasErased(old(b.tree), key, b.tree, Exact)
    ensures Keys(b.tree) + multiset{key} == Keys(old(b.tree))
    ensures b.Foreign() == old(b.Foreign())
  {
    var n := b.leaves[leaf];
    ghost var x := Sub(b.tree, path);
    SubOk(b.tree, b.height, m, path);
    WithoutInPlace(x, i, LoAt(b.tree, path), HiAt(b.tree, path), m, path == []);
    WithoutEffect(b.tree, path, key, i);
    WithoutKeys(b.tree, path, i);
    LeafRewrite(b.Maps(), b.tree, b.height, m, path, RemoveAt(n.keys, i), RemoveAt(n.refs, i));
    SubReplace(b.tree, path, Without(x, i));
    b.Adopt(b.leaves[leaf := LeafNode(RemoveAt(n.keys, i), RemoveAt(n.refs, i))], b.inners, b.rootId, b.height,
            Replace(b.tree, path, Without(x, i)), m);
  }

  /** The leaf falls short. */
  method EraseShort(b: BTree, leaf: PageId, i: nat, ghost path: Path, ghost m: Mode, ghost key: Key)
    requires b.Valid(m) && !b.Empty() && ValidPath(b.tree, path) && Routes(b.tree, path, key) && m.fill && path != []
    requires leaf in b.leaves && i < |b.leaves[leaf].keys| && b.leaves[leaf].keys[i] == key
    requires |b.leaves[leaf].keys| == |b.leaves[leaf].refs|
    requires var x := Sub(b.tree, path); x == Leaf(leaf, b.leaves[leaf].keys, b.leaves[leaf].refs)
    requires |b.leaves[leaf].keys| <= b.caps.leaf / 2
    modifies b
    ensures b.size == old(b.size) && Sub(old(b.tree), path).Leaf?
    ensures i < |Sub(old(b.tree), path).keys| == |Sub(old(b.tree), path).refs|
    ensures ShortIn(b, old(b.tree), m, path, Without(Sub(old(b.tree), path), i))
    ensures forall k :: Lookup(b.tree, k) == if k == key then None else Lookup(old(b.tree), k)
    ensures Keys(b.tree) + multiset{key} == Keys(old(b.tree))
    ensures b.Foreign() == old(b.Foreign())
  {
    var n := b.leaves[leaf];
    ghost var t, x := b.tree, Sub(b.tree, path);
    SubOk(t, b.height, m, path);
    WithoutInPlace(x, i, LoAt(t, path), HiAt(t, path), m, false);
    WithoutEffect(t, path, key, i);
    WithoutKeys(t, path, i);
    WithoutPages(b.Maps(), t, b.height, m, path, i);
    SubReplace(t, path, Without(x, i));
    b.leaves := b.leaves[leaf := LeafNode(RemoveAt(n.keys, i), RemoveAt(n.refs, i))];
    b.tree := Replace(t, path, Without(x, i));
  }

  lemma WithoutPages(s: Store, t: Tree, h: nat, m: Mode, path: Path, i: nat)
    requires Good(s, t, h, m) && ValidPath(t, path) && |path| < h
    requires var x := Sub(t, path); x.Leaf? && |x.keys| == |x.refs| && i < |x.keys|
    requires InPlace(Without(Sub(t, path), i), h - |path|, LoAt(t, path), HiAt(t, path), m)
    requires |Sub(t, path).keys| <= m.caps.leaf
    ensures var y := Without(Sub(t, path), i);
            var s' := s.(leaves := s.leaves[y.id := LeafNode(y.keys, y.refs)]);
            && Represents(s', Replace(t, path, y)) && Owns(s', Pages(Replace(t, path, y)))
            && s'.Ids() == s.Ids()
  {
    var y := Without(Sub(t, path), i);
    Unfill(t, h, Inf, Inf, m, true);
    ShortOk(y, h - |path|, LoAt(t, path), HiAt(t, path), m);
    LeafRewrite(s, t, h, NoFill(m), path, y.keys, y.refs);
    SubRepresents(s, t, path);
  }

  /** The last entry of a leaf that is the root: the tree becomes empty. */
  method EraseLast(b: BTree, leaf: PageId, key: Key, ghost m: Mode)
    requires b.Valid(m) && !b.Empty() && b.tree.Leaf? && b.tree.id == leaf && b.tree.keys == [key] && leaf in b.leaves
    modifies b, b.space.pages, b.space.freeMap
    ensures b.Valid(m) && b.Empty() && b.size == old(b.size)
    ensures forall k :: b.Value(k) == Erased(old(b.Value(k)), key, Exact, k)
    ensures b.Foreign() == old(b.Foreign())
  {
    OnlyPage(b.Maps(), leaf, b.tree);
    forall k ensures k != key ==> Lookup(b.tree, k) == None { LowerBoundIs([key], k, if k <= key then 0 else 1); }
    b.leaves := b.leaves - {leaf};
    var ok := b.space.FreePage(leaf);
    b.rootId, b.height := INVALID_PAGE, 0;
    assert b.leaves == map[] && b.inners == map[];
  }

  lemma OnlyPage(s: Store, leaf: PageId, t: Tree)
    requires t.Leaf? && t.id == leaf && Owns(s, Pages(t)) && leaf in s.leaves
    ensures s.leaves.Keys == {leaf} && s.inners.Keys == {}
  {
    forall p ensures p in s.Ids() <==> p == leaf { assert Pages(t)[p] == if p in s.Ids() then 1 else 0; }
  }

  /** What an erase of a present key does, from the tree before it. */
  ghost predicate Outcome(t: Tree, key: Key, caps: Caps, st: Status, e: Effect) {
    && (st == Done || st == Rejected)
    && (st == Rejected <==> Refused(t, key, caps)) && (st == Rejected ==> e.Exact?)
    && (e.Exact? <==> !Borrows(t, key, caps))
    && (e.Lost? <==> Breaks(t, key, caps))
    && (Borrows(t, key, caps) ==>
          var p := LeafParent(t, key); Lends(p, LowerBound(p.keys, key), caps.leaf / 2, e))
  }

  method EraseAndRepair(b: BTree, path: Path, leaf: PageId, i: nat, key: Key, ghost m: Mode)
    returns (st: Status, ghost e: Effect)
    requires b.Valid(m) && m.fill && !b.Empty() && ValidPath(b.tree, path) && Routes(b.tree, path, key) && path != []
    requires leaf in b.leaves && i < |b.leaves[leaf].keys| && b.leaves[leaf].keys[i] == key
    requires |b.leaves[leaf].keys| == |b.leaves[leaf].refs|
    requires var x := Sub(b.tree, path); x == Leaf(leaf, b.leaves[leaf].keys, b.leaves[leaf].refs)
    requires |b.leaves[leaf].keys| <= b.caps.leaf / 2
    modifies b, b.space.pages, b.space.freeMap
    ensures b.size == old(b.size) && !b.Empty()
    ensures if e.Lost? then Broken(b) else b.Valid(if st == Rejected then NoFill(m) else m)
    ensures st == Rejected ==> !b.Valid(m)
    ensures HasErased(old(b.tree), key, b.tree, e)
    ensures Outcome(old(b.tree), key, b.caps, st, e)
    ensures Keys(b.tree) + EraseDrops(old(b.tree), key, b.caps) + multiset{key} == Keys(old(b.tree))
    ensures b.Foreign() == old(b.Foreign())
  {
    ghost var t, x := b.tree, Without(Sub(b.tree, path), i);
    SubOk(t, b.height, m, path);
    EraseShort(b, leaf, i, path, m, key);
    ghost var t1 := b.tree;
    st, e := FixLeafUnderflow(b, path, t, m, x);
    ErasedThenRepaired(t, t1, b.tree, key, e);
    FallOutcome(t, path, key, i, b.caps, st, e);
    FallDrops(t, path, key, b.caps, Keys(b.tree), Keys(t1), Keys(t));
  }

  /** The separators dropped, seen from the tree before the erase. */
  lemma FallDrops(t: Tree, path: Path, key: Key, caps: Caps, after: multiset<Key>, short: multiset<Key>,
                  before: multiset<Key>)
    requires path != [] && ValidPath(t, path) && Routes(t, path, key) && Sub(t, path).Leaf? && Sub(t, Up(path)).Node?
    requires |Sub(t, path).keys| <= caps.leaf / 2 && short + multiset{key} == before
    requires after + MergeDrops(Sub(t, Up(path)), path[|path| - 1].idx, caps.leaf / 2) == short
    ensures after + EraseDrops(t, key, caps) + multiset{key} == before
  {
    AtLeaf(t, path, key);
  }

  /** The outcome of a repair, seen from the tree before the erase. */
  lemma FallOutcome(t: Tree, path: Path, key: Key, i: nat, caps: Caps, st: Status, e: Effect)
    requires path != [] && ValidPath(t, path) && Routes(t, path, key) && Sub(t, path).Leaf?
    requires Sorted(Sub(t, path).keys) && i < |Sub(t, path).keys| == |Sub(t, path).refs| && Sub(t, path).keys[i] == key
    requires |Sub(t, path).keys| <= caps.leaf / 2 && (st == Done || st == Rejected)
    requires Lends(Sub(t, Up(path)), path[|path| - 1].idx, caps.leaf / 2, e)
    requires var j := PairIndex(Sub(t, Up(path)), path[|path| - 1].idx, caps.leaf / 2);
             e.Lost? <==> !e.Exact? && HoldsSeparator(ParentOf(t, path, Without(Sub(t, path), i)), j)
    requires st == Rejected <==> e.Exact? && Stuck(t, Up(path), caps)
    ensures Outcome(t, key, caps, st, e)
  {
    AtLeaf(t, path, key);
    StillHolds(Sub(t, path).keys, i);
  }

  /** Removing a key removes that key only. */
  lemma StillHolds(ks: seq<Key>, i: nat)
    requires Sorted(ks) && i < |ks|
    ensures forall k :: k in RemoveAt(ks, i) <==> k in ks && k != ks[i]
  {
    forall k ensures k in RemoveAt(ks, i) <==> k in ks && k != ks[i] {
      if k in ks && k != ks[i] {
        var j :| 0 <= j < |ks| && ks[j] == k;
        assert RemoveAt(ks, i)[if j < i then j else j - 1] == k;
      }
    }
  }

  lemma ErasedThenRepaired(t: Tree, t1: Tree, t2: Tree, key: Key, e: Effect)
    requires forall k :: Lookup(t1, k) == if k == key then None else Lookup(t, k)
    requires Repaired(t1, t2, e)
    ensures HasErased(t, key, t2, e)
  {
  }

  /** What erasing key makes of the map and the bag of keys. */
  twostate predicate ErasedFrom(b: BTree, key: Key, e: Effect)
    reads b
  {
    && (forall k :: b.Value(k) == Erased(old(b.Value(k)), key, e, k))
    && b.KeyBag() + EraseDrops(old(b.tree), key, b.caps) + multiset{key} == old(b.KeyBag())
    && (e.Moved? ==> e.key != key && e.sep != e.key && old(b.Value(e.key)) == Some(e.ref))
    && (e.Lost? ==> e.key != key && old(b.Value(e.key)).Some?)
  }

  /** Takes entry i out of the leaf at path and repairs the tree. */
  method EraseEntry(b: BTree, path: Path, leaf: PageId, i: nat, key: Key, ghost m: Mode)
    returns (st: Status, ghost e: Effect)
    requires b.Valid(m) && m.fill && !b.Empty() && ValidPath(b.tree, path) && Routes(b.tree, path, key)
    requires leaf in b.leaves && i < |b.leaves[leaf].keys| && b.leaves[leaf].keys[i] == key
    requires |b.leaves[leaf].keys| == |b.leaves[leaf].refs|
    requires var x := Sub(b.tree, path); x == Leaf(leaf, b.leaves[leaf].keys, b.leaves[leaf].refs)
    modifies b, b.space.pages, b.space.freeMap
    ensures b.size == old(b.size)
    ensures if e.Lost? then Broken(b) else b.Valid(if st == Rejected then NoFill(m) else m)
    ensures st == Rejected ==> !b.Valid(m)
    ensures ErasedFrom(b, key, e) && Outcome(old(b.tree), key, b.caps, st, e)
    ensures b.Foreign() == old(b.Foreign())
  {
    e, st := Exact, Done;
    NoFall(b.tree, path, key, b.caps);
    if path == [] && |b.leaves[leaf].keys| == 1 {
      assert b.tree.keys == [key];
      EraseLast(b, leaf, key, m);
    } else if path == [] || |b.leaves[leaf].keys| > b.caps.leaf / 2 {
      EraseInLeaf(b, leaf, i, path, m, key);
    } else {
      st, e := EraseAndRepair(b, path, leaf, i, key, m);
    }
  }

  method CountOneLess(b: BTree)
    modifies b`size
    ensures b.size == Decremented(old(b.size))
    ensures forall m :: old(b.Valid(m)) <==> b.Valid(m)
    ensures old(Broken(b)) ==> Broken(b)
    ensures b.Foreign() == old(b.Foreign())
  {
    b.size := Decremented(b.size);
  }

  method EraseAt(b: BTree, path: Path, leaf: PageId, i: nat, key: Key, ghost m: Mode)
    returns (st: Status, ghost e: Effect)
    requires b.Valid(m) && m.fill && !b.Empty() && ValidPath(b.tree, path) && Routes(b.tree, path, key)
    requires leaf in b.leaves && i < |b.leaves[leaf].keys| && b.leaves[leaf].keys[i] == key
    requires |b.leaves[leaf].keys| == |b.leaves[leaf].refs|
    requires var x := Sub(b.tree, path); x == Leaf(leaf, b.leaves[leaf].keys, b.leaves[leaf].refs)
    modifies b, b.space.pages, b.space.freeMap
    ensures b.size == Decremented(old(b.size))
    ensures if e.Lost? then Broken(b) else b.Valid(if st == Rejected then NoFill(m) else m)
    ensures st == Rejected ==> !b.Valid(m)
    ensures ErasedFrom(b, key, e) && Outcome(old(b.tree), key, b.caps, st, e)
    ensures b.Foreign() == old(b.Foreign())
  {
    st, e := EraseEntry(b, path, leaf, i, key, m);
    CountOneLess(b);
  }

  /** A leaf that keeps enough keys sets nothing off. */
  lemma NoFall(t: Tree, path: Path, key: Key, caps: Caps)
    requires ValidPath(t, path) && Routes(t, path, key) && Sub(t, path).Leaf?
    ensures path == [] || |Sub(t, path).keys| > caps.leaf / 2 ==>
              Outcome(t, key, caps, Done, Exact) && EraseDrops(t, key, caps) == multiset{}
  {
    AtLeaf(t, path, key);
  }

  /** Erases a key that find would find.  Unless the leaf borrows, the map loses exactly the
      key; if it borrows, another key is lost as well, and unless the order breaks its reference
      is found under an old separator.  Order, separators and uniform depth are kept unless the
      order breaks, and occupancy too unless a merge of inner nodes is refused. */
  method Erase(b: BTree, key: Key, ghost m: Mode) returns (st: Status, ghost e: Effect)
    requires b.Valid(m) && m.fill
    modifies b, b.space.pages, b.space.freeMap
    ensures st == NotFound <==> old(b.Value(key)).None?
    ensures st == NotFound ==>
              && b.Valid(m) && b.size == old(b.size) && b.KeyBag() == old(b.KeyBag())
              && forall k :: b.Value(k) == old(b.Value(k))
    ensures st != NotFound ==>
              && Outcome(old(b.tree), key, b.caps, st, e) && ErasedFrom(b, key, e)
              && b.size == (if old(b.size) == 0 then 0xFFFF_FFFF_FFFF_FFFF else old(b.size) - 1)
              && (if e.Lost? then Broken(b) else b.Valid(if st == Rejected then NoFill(m) else m))
              && (st == Rejected ==> !b.Valid(m))
    ensures b.Foreign() == old(b.Foreign())
  {
    e := Exact;
    if b.rootId == INVALID_PAGE { return NotFound, e; }
    var path, leaf := b.DescendToLeaf(key, m);
    SubOk(b.tree, b.height, m, path);
    RouteLookup(b.tree, path, key);
    var n := b.leaves[leaf];
    var i := SearchLowerBound(n.keys, key);
    if i >= |n.keys| || n.keys[i] != key { return NotFound, e; }
    st, e := EraseAt(b, path, leaf, i, key, m);
  }
}
