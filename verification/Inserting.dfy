/**
  The steps of an insert that splits.  Between two steps the page maps hold a good tree
  and, beside it, one detached right half that its parent does not know yet.
 */
module Inserting {
  import opened Options
  import opened PageReferences
  import opened Trees
  import opened Stores
  import opened Rebalancing

  /** The pages of the store are exactly the given ones, each once. */
  ghost predicate Owns(s: Store, ps: multiset<PageId>) {
    && s.leaves.Keys !! s.inners.Keys
    && forall p :: ps[p] == if p in s.Ids() then 1 else 0
  }

  /** The store holds a good tree and nothing else. */
  ghost predicate Good(s: Store, t: Tree, h: nat, m: Mode) {
    && Ok(t, h, Inf, Inf, m, true)
    && Represents(s, t)
    && Owns(s, Pages(t))
  }

  /** t is good, and r belongs directly to the right of its node at path, separated from
      that node by sep. */
  predicate PendingOk(t: Tree, h: nat, m: Mode, path: Path, sep: Key, r: Tree) {
    && Ok(t, h, Inf, Inf, m, true)
    && ValidPath(t, path)
    && |path| < h
    && Ok(Sub(t, path), h - |path|, LoAt(t, path), At(sep), m, false)
    && Ok(r, h - |path|, At(sep), HiAt(t, path), m, false)
    && Above(LoAt(t, path), sep) && Below(sep, HiAt(t, path), true)
  }

  ghost predicate Stored(s: Store, t: Tree, r: Tree) {
    Represents(s, t) && Represents(s, r) && Owns(s, Pages(t) + Pages(r))
  }

  /** The store holds a good tree t, the detached subtree r, and nothing else. */
  ghost predicate Pending(s: Store, t: Tree, h: nat, m: Mode, path: Path, sep: Key, r: Tree) {
    PendingOk(t, h, m, path, sep, r) && Stored(s, t, r)
  }

  /** What a search is to find once r is attached. */
  function Attached(t: Tree, path: Path, sep: Key, r: Tree, k: Key): Option<PageReference>
    requires ValidPath(t, path)
  {
    if Routes(t, path, k) && sep < k then Lookup(r, k) else Lookup(t, k)
  }

  // ---------------------------------------------------------------- the leaf

  /** Full leaf: keys with the new one, cut at the middle; the middle entry goes nowhere. */
  function SplitPoint(n: nat): nat { n / 2 }

  lemma LeafSplitSizes(cap: nat)
    requires cap >= 2
    ensures var n, i := cap + 1, SplitPoint(cap + 1);
            && i + 1 < n && cap / 2 <= i <= cap && cap / 2 <= n - i - 1 <= cap && 1 <= i && 1 <= n - i - 1
  {
  }

  lemma OwnsSame(s: Store, s': Store, ps: multiset<PageId>)
    requires Owns(s, ps) && s'.leaves.Keys == s.leaves.Keys && s'.inners.Keys == s.inners.Keys
    ensures Owns(s', ps)
  {
  }

  lemma OwnsDistinct(s: Store, t: Tree, rest: multiset<PageId>)
    requires Owns(s, Pages(t) + rest)
    ensures Distinct(t) && forall p :: p in Pages(t) ==> p !in rest
  {
    forall p ensures Pages(t)[p] <= 1 && (p in Pages(t) ==> p !in rest) {
      assert (Pages(t) + rest)[p] <= 1;
    }
  }

  /** Rewriting a leaf in place. */
  lemma LeafRewrite(s: Store, t: Tree, h: nat, m: Mode, path: Path, ks: seq<Key>, rs: seq<PageReference>)
    requires Good(s, t, h, m) && ValidPath(t, path) && Sub(t, path).Leaf?
    requires |path| < h
    requires Ok(Leaf(Sub(t, path).id, ks, rs), h - |path|, LoAt(t, path), HiAt(t, path), m, path == [])
    ensures var x := Leaf(Sub(t, path).id, ks, rs);
            Good(s.(leaves := s.leaves[x.id := LeafNode(ks, rs)]), Replace(t, path, x), h, m)
  {
    var x := Leaf(Sub(t, path).id, ks, rs);
    var s' := s.(leaves := s.leaves[x.id := LeafNode(ks, rs)]);
    ReplaceOk(t, h, m, path, x);
    OwnsDistinct(s, t, multiset{});
    SubRepresents(s, t, path);
    assert s'.leaves.Keys == s.leaves.Keys;
    RepresentsReplace(s, s', t, path, x);
    BagReplace(t, path, x, OwnPage);
    Swap(Pages(Replace(t, path, x)), Pages(Sub(t, path)), Pages(t), Pages(x), multiset{});
  }

  /** The leaf at path split in two halves around a dropped middle entry. */
  lemma LeafSplit(s: Store, t: Tree, h: nat, m: Mode, path: Path, y: Tree, i: nat, l: Tree, r: Tree, s': Store)
    requires Good(s, t, h, m) && ValidPath(t, path) && Sub(t, path).Leaf? && m.caps.leaf >= 2
    requires y.Leaf? && y.id == Sub(t, path).id && Sorted(y.keys) && |y.keys| == |y.refs| == m.caps.leaf + 1
    requires Within(y.keys, LoAt(t, path), HiAt(t, path), m.strict)
    requires i == SplitPoint(|y.keys|)
    requires l == Leaf(y.id, y.keys[..i], y.refs[..i]) && r == Leaf(r.id, y.keys[i + 1..], y.refs[i + 1..])
    requires r.id !in s.Ids()
    requires s' == s.(leaves := s.leaves[l.id := LeafNode(l.keys, l.refs)][r.id := LeafNode(r.keys, r.refs)])
    ensures Pending(s', Replace(t, path, l), h, m, path, y.keys[i], r)
  {
    LeafSplitOk(t, h, m, path, y, i, l, r);
    var s1 := s.(leaves := s.leaves[l.id := LeafNode(l.keys, l.refs)]);
    LeafRewrite(s, t, h, m, path, l.keys, l.refs);
    SubRepresents(s, t, path);
    assert s1.leaves.Keys == s.leaves.Keys;
    AddLeafPage(s1, Replace(t, path, l), r.id, LeafNode(r.keys, r.refs));
  }

  lemma LeafSplitOk(t: Tree, h: nat, m: Mode, path: Path, y: Tree, i: nat, l: Tree, r: Tree)
    requires Ok(t, h, Inf, Inf, m, true) && ValidPath(t, path) && Sub(t, path).Leaf? && m.caps.leaf >= 2
    requires y.Leaf? && y.id == Sub(t, path).id && Sorted(y.keys) && |y.keys| == |y.refs| == m.caps.leaf + 1
    requires Within(y.keys, LoAt(t, path), HiAt(t, path), m.strict)
    requires i == SplitPoint(|y.keys|)
    requires l == Leaf(y.id, y.keys[..i], y.refs[..i]) && r == Leaf(r.id, y.keys[i + 1..], y.refs[i + 1..])
    ensures PendingOk(Replace(t, path, l), h, m, path, y.keys[i], r)
    ensures h - |path| == 1 && Ok(l, 1, LoAt(t, path), HiAt(t, path), m, path == [])
  {
    var lo, hi := LoAt(t, path), HiAt(t, path);
    SubOk(t, h, m, path);
    LeafSplitSizes(m.caps.leaf);
    LeafCutOk(y.id, r.id, y.keys, y.refs, i, lo, hi, m);
    Widen(l, 1, lo, At(y.keys[i]), hi, m, false);
    ReplaceOk(t, h, m, path, l);
    SubReplace(t, path, l);
  }

  /** A new page beside a represented tree. */
  lemma AddLeafPage(s: Store, t: Tree, id: PageId, n: LeafNode)
    requires Represents(s, t) && Owns(s, Pages(t)) && id !in s.Ids()
    ensures var s' := s.(leaves := s.leaves[id := n]);
            Represents(s', t) && Owns(s', Pages(t) + multiset{id})
  {
    RepresentsFrame(s, s.(leaves := s.leaves[id := n]), t);
  }

  // ---------------------------------------------------------------- the root

  /** A new root over the tree and its detached right half. */
  lemma GrowRoot(s: Store, t: Tree, h: nat, m: Mode, sep: Key, r: Tree, id: PageId)
    requires Pending(s, t, h, m, [], sep, r) && id !in s.Ids() && m.caps.inner >= 2
    ensures var t' := Node(id, [sep], [t, r]);
            && Good(s.(inners := s.inners[id := InnerNode([sep], [t.id, r.id])]), t', h + 1, m)
            && (forall k :: Lookup(t', k) == Attached(t, [], sep, r, k))
            && Keys(t') == Keys(t) + (Keys(r) + multiset{sep})
  {
    GrownRootOk(t, h, m, sep, r, id);
    GrownRootStore(s, t, sep, r, id);
    TwoKids(id, sep, t, r, OwnKeys);
    forall k ensures Lookup(Node(id, [sep], [t, r]), k) == Attached(t, [], sep, r, k) {
      LowerBoundIs([sep], k, if k <= sep then 0 else 1);
    }
  }

  lemma GrownRootOk(t: Tree, h: nat, m: Mode, sep: Key, r: Tree, id: PageId)
    requires Ok(t, h, Inf, At(sep), m, false) && Ok(r, h, At(sep), Inf, m, false) && h > 0 && m.caps.inner >= 2
    ensures Ok(Node(id, [sep], [t, r]), h + 1, Inf, Inf, m, true)
  {
    assert KidsOk([sep], [t, r], h, Inf, Inf, m);
  }

  lemma GrownRootPages(s: Store, t: Tree, sep: Key, r: Tree, id: PageId)
    requires Owns(s, Pages(t) + Pages(r)) && id !in s.Ids()
    ensures Owns(s.(inners := s.inners[id := InnerNode([sep], [t.id, r.id])]), Pages(Node(id, [sep], [t, r])))
  {
    TwoKids(id, sep, t, r, OwnPage);
    var ps, ps' := Pages(t) + Pages(r), Pages(Node(id, [sep], [t, r]));
    assert ps' == ps + multiset{id};
    OwnsOneMore(s, s.(inners := s.inners[id := InnerNode([sep], [t.id, r.id])]), ps, id, ps');
  }

  lemma GrownRootStore(s: Store, t: Tree, sep: Key, r: Tree, id: PageId)
    requires Represents(s, t) && Represents(s, r) && Owns(s, Pages(t) + Pages(r)) && id !in s.Ids()
    ensures var t' := Node(id, [sep], [t, r]);
            var s' := s.(inners := s.inners[id := InnerNode([sep], [t.id, r.id])]);
            Represents(s', t') && Owns(s', Pages(t'))
  {
    var s' := s.(inners := s.inners[id := InnerNode([sep], [t.id, r.id])]);
    assert (Pages(t) + Pages(r))[id] == 0;
    WriteInner(s, id, InnerNode([sep], [t.id, r.id]));
    RepresentsFrame(s, s', t);
    RepresentsFrame(s, s', r);
    GrownRootPages(s, t, sep, r, id);
  }

  lemma TwoKids<A>(id: PageId, sep: Key, t: Tree, r: Tree, own: (PageId, seq<Key>) -> multiset<A>)
    ensures Bag(Node(id, [sep], [t, r]), own) == own(id, [sep]) + Bag(t, own) + Bag(r, own)
  {
    assert [t, r][1..] == [r] && [r][1..] == [];
    assert Bags([r], own) == Bag(r, own);
    assert Bags([t, r], own) == Bag(t, own) + Bags([r], own);
  }

  // ---------------------------------------------------------------- the parent

  function Up(path: Path): Path
    requires path != []
  {
    path[..|path| - 1]
  }

  /** The parent of the pending split, with the detached half attached. */
  function Extended(p: Tree, i: nat, sep: Key, r: Tree): Tree
    requires p.Node? && i <= |p.keys| && i < |p.kids|
  {
    Node(p.id, InsertAt(p.keys, i, sep), InsertAt(p.kids, i + 1, r))
  }

  lemma ExtendedBag<A>(p: Tree, i: nat, sep: Key, r: Tree, own: (PageId, seq<Key>) -> multiset<A>)
    requires p.Node? && i <= |p.keys| && i < |p.kids|
    ensures Bags(Extended(p, i, sep, r).kids, own) == Bags(p.kids, own) + Bag(r, own)
  {
    var a, b := p.kids[..i + 1], p.kids[i + 1..];
    BagsConcat(a + [r], b, own);
    BagsConcat(a, [r], own);
    BagsConcat(a, b, own);
    assert p.kids == a + b;
  }

  lemma ExtendedKeys(p: Tree, i: nat, sep: Key, r: Tree)
    requires p.Node? && i <= |p.keys| && i < |p.kids|
    ensures Keys(Extended(p, i, sep, r)) == Keys(p) + (Keys(r) + multiset{sep})
  {
    ExtendedBag(p, i, sep, r, OwnKeys);
    assert p.keys == p.keys[..i] + p.keys[i..];
  }

  lemma ExtendedKids(s: Store, p: Tree, i: nat, sep: Key, r: Tree, c: seq<PageId>)
    requires p.Node? && Represents(s, p) && Represents(s, r) && i <= |p.keys| && i < |p.kids|
    requires c == InsertAt(s.inners[p.id].children, i + 1, r.id)
    ensures ChildrenMatch(s, Extended(p, i, sep, r), c)
  {
  }

  /** The child ids c lead to the represented children of e. */
  predicate ChildrenMatch(s: Store, e: Tree, c: seq<PageId>) {
    e.Node? && |c| == |e.kids| && forall j :: 0 <= j < |c| ==> c[j] == e.kids[j].id && Represents(s, e.kids[j])
  }

  lemma ExtendedAttached(t: Tree, path: Path, sep: Key, r: Tree, k: Key)
    requires ValidPath(t, path) && path != []
    requires var p, i := Sub(t, Up(path)), path[|path| - 1].idx;
             i <= |p.keys| && |p.kids| == |p.keys| + 1 && Sorted(InsertAt(p.keys, i, sep))
    ensures var p, i := Sub(t, Up(path)), path[|path| - 1].idx;
            Attached(t, path, sep, r, k) ==
            if Routes(t, Up(path), k) then Lookup(Extended(p, i, sep, r), k) else Lookup(t, k)
  {
    var up, i := Up(path), path[|path| - 1].idx;
    var p := Sub(t, up);
    if Routes(t, up, k) {
      RouteLookup(t, up, k);
      InsertChildLookup(p.id, p.keys, p.kids, i, sep, r, k);
    }
  }

  /** What is known of the parent's page p once the detached half is written into it: e is
      the parent with the half attached, c its child page ids. */
  ghost predicate AtParent(s: Store, t: Tree, h: nat, m: Mode, path: Path, sep: Key, r: Tree, e: Tree, c: seq<PageId>) {
    && path != [] && ValidPath(t, path)
    && var p := Sub(t, Up(path));
    && p.Node? && p.id in s.inners && p.id !in s.leaves
    && e.Node? && e.id == p.id && |e.keys| == |p.keys| + 1 && |e.kids| == |e.keys| + 1
    && |path| < h
    && KidsOk(e.keys, e.kids, h - |path|, LoAt(t, Up(path)), HiAt(t, Up(path)), m)
    && (m.fill && Up(path) != [] ==> m.caps.inner / 2 <= |p.keys|)
    && ChildrenMatch(s, e, c)
    && Bags(e.kids, OwnPage) == Bags(p.kids, OwnPage) + Pages(r)
    && Keys(e) == Keys(p) + (Keys(r) + multiset{sep})
    && forall k :: Attached(t, path, sep, r, k) == if Routes(t, Up(path), k) then Lookup(e, k) else Lookup(t, k)
  }

  /** The pending half reaches its parent: the index on the path is right, the separator is
      not among the parent's keys, and writing it there keeps the order. */
  lemma ReachParent(s: Store, t: Tree, h: nat, m: Mode, path: Path, sep: Key, r: Tree) returns (e: Tree, c: seq<PageId>)
    requires Pending(s, t, h, m, path, sep, r) && path != []
    ensures AtParent(s, t, h, m, path, sep, r, e, c)
    ensures var p, i := Sub(t, Up(path)), path[|path| - 1].idx;
            && path[|path| - 1].page == p.id
            && sep !in p.keys
            && s.inners[p.id].keys == p.keys
            && |p.keys| <= m.caps.inner
            && i <= |p.keys| && i + 1 <= |s.inners[p.id].children|
            && e.keys == InsertAt(p.keys, i, sep)
            && c == InsertAt(s.inners[p.id].children, i + 1, r.id)
  {
    var up, i := Up(path), path[|path| - 1].idx;
    SubOk(t, h, m, up);
    SubRepresents(s, t, up);
    var p := Sub(t, up);
    e := Extended(p, i, sep, r);
    c := InsertAt(s.inners[p.id].children, i + 1, r.id);
    ExtendedOk(t, h, m, path, sep, r);
    ExtendedKids(s, p, i, sep, r, c);
    ExtendedBag(p, i, sep, r, OwnPage);
    ExtendedKeys(p, i, sep, r);
    forall k ensures Attached(t, path, sep, r, k) == if Routes(t, up, k) then Lookup(e, k) else Lookup(t, k) {
      ExtendedAttached(t, path, sep, r, k);
    }
    NotASeparator(p.keys, LoAt(t, up), HiAt(t, up), i, sep);
  }

  lemma ExtendedOk(t: Tree, h: nat, m: Mode, path: Path, sep: Key, r: Tree)
    requires PendingOk(t, h, m, path, sep, r) && path != []
    ensures var up, i := Up(path), path[|path| - 1].idx;
            var p := Sub(t, up);
            && p.Node? && i <= |p.keys| && i < |p.kids| && |p.kids| == |p.keys| + 1
            && Above(LoOf(p.keys, LoAt(t, up), i), sep) && Below(sep, HiOf(p.keys, HiAt(t, up), i), true)
            && var e := Extended(p, i, sep, r);
            KidsOk(e.keys, e.kids, h - |path|, LoAt(t, up), HiAt(t, up), m)
  {
    var up, i := Up(path), path[|path| - 1].idx;
    SubOk(t, h, m, up);
    var p := Sub(t, up);
    InsertChildOk(p.keys, p.kids, h - |path|, LoAt(t, up), HiAt(t, up), m, i, sep, r);
  }

  lemma NotASeparator(ks: seq<Key>, lo: Bound, hi: Bound, i: nat, sep: Key)
    requires Sorted(ks) && i <= |ks| && Above(LoOf(ks, lo, i), sep) && Below(sep, HiOf(ks, hi, i), true)
    ensures sep !in ks
  {
  }

  /** A page rewritten to hold children that are represented apart from it. */
  lemma RewriteInner(s: Store, s': Store, x: Tree, c: seq<PageId>, ids: set<PageId>)
    requires ChildrenMatch(s, x, c) && x.id !in s'.leaves && x.id in s'.inners
    requires s'.inners[x.id] == InnerNode(x.keys, c)
    requires SameBut(s, s', ids) && forall p :: p in Bags(x.kids, OwnPage) ==> p !in ids
    ensures Represents(s', x)
  {
    forall j | 0 <= j < |x.kids| ensures c[j] == x.kids[j].id && Represents(s', x.kids[j]) {
      BagsAt(x.kids, j, OwnPage);
      RepresentsFrame(s, s', x.kids[j]);
    }
  }

  lemma ApartFromSelf(s: Store, t: Tree, up: Path, r: Tree)
    requires Owns(s, Pages(t) + Pages(r)) && ValidPath(t, up) && Sub(t, up).Node?
    ensures var p := Sub(t, up); p.id !in Bags(p.kids, OwnPage) && p.id !in Pages(r)
  {
    var p := Sub(t, up);
    BagReplace(t, up, p, OwnPage);
    assert (Pages(t) + Pages(r))[p.id] <= 1;
    assert Pages(p) == multiset{p.id} + Bags(p.kids, OwnPage);
    assert Pages(p)[p.id] <= Pages(t)[p.id];
  }

  // ---------------------------------------------------------------- a parent with room

  lemma ExtendedRepresents(s: Store, t: Tree, up: Path, r: Tree, e: Tree, c: seq<PageId>, s': Store)
    requires Represents(s, t) && Owns(s, Pages(t) + Pages(r))
    requires ValidPath(t, up) && Sub(t, up).Node? && Sub(t, up).id in s.inners && Sub(t, up).id !in s.leaves
    requires ChildrenMatch(s, e, c) && e.id == Sub(t, up).id
    requires Bags(e.kids, OwnPage) == Bags(Sub(t, up).kids, OwnPage) + Pages(r)
    requires s' == s.(inners := s.inners[e.id := InnerNode(e.keys, c)])
    ensures Represents(s', Replace(t, up, e))
  {
    OwnsDistinct(s, t, Pages(r));
    ApartFromSelf(s, t, up, r);
    WriteInner(s, e.id, InnerNode(e.keys, c));
    RewriteInner(s, s', e, c, {e.id});
    RepresentsReplace(s, s', t, up, e);
  }

  lemma ExtendedPageBag(t: Tree, up: Path, r: Tree, e: Tree)
    requires ValidPath(t, up) && Sub(t, up).Node? && e.Node? && e.id == Sub(t, up).id
    requires Bags(e.kids, OwnPage) == Bags(Sub(t, up).kids, OwnPage) + Pages(r)
    ensures Pages(Replace(t, up, e)) == Pages(t) + Pages(r)
  {
    var p := Sub(t, up);
    BagReplace(t, up, e, OwnPage);
    assert Pages(e) == Pages(p) + Pages(r);
    Swap(Pages(Replace(t, up, e)), Pages(p), Pages(t), Pages(e), Pages(r));
  }

  lemma ExtendedPages(s: Store, t: Tree, up: Path, r: Tree, e: Tree, c: seq<PageId>)
    requires Represents(s, t) && Owns(s, Pages(t) + Pages(r))
    requires ValidPath(t, up) && Sub(t, up).Node? && Sub(t, up).id in s.inners && Sub(t, up).id !in s.leaves
    requires ChildrenMatch(s, e, c) && e.id == Sub(t, up).id
    requires Bags(e.kids, OwnPage) == Bags(Sub(t, up).kids, OwnPage) + Pages(r)
    ensures var s' := s.(inners := s.inners[e.id := InnerNode(e.keys, c)]);
            Represents(s', Replace(t, up, e)) && Owns(s', Pages(Replace(t, up, e)))
  {
    var s' := s.(inners := s.inners[e.id := InnerNode(e.keys, c)]);
    ExtendedRepresents(s, t, up, r, e, c, s');
    ExtendedPageBag(t, up, r, e);
    OwnsSame(s, s', Pages(t) + Pages(r));
  }

  /** The parent has room: the pending half is attached and the tree is whole again. */
  lemma ParentInsert(s: Store, t: Tree, h: nat, m: Mode, path: Path, sep: Key, r: Tree, e: Tree, c: seq<PageId>)
    requires Pending(s, t, h, m, path, sep, r) && AtParent(s, t, h, m, path, sep, r, e, c)
    requires |e.keys| <= m.caps.inner
    ensures var t' := Replace(t, Up(path), e);
            && Good(s.(inners := s.inners[e.id := InnerNode(e.keys, c)]), t', h, m)
            && (forall k :: Lookup(t', k) == Attached(t, path, sep, r, k))
            && Keys(t') == Keys(t) + (Keys(r) + multiset{sep})
  {
    var up := Up(path);
    var t' := Replace(t, up, e);
    ParentInsertOk(s, t, h, m, path, sep, r, e, c);
    ExtendedPages(s, t, up, r, e, c);
    forall k ensures Lookup(t', k) == Attached(t, path, sep, r, k) { LookupReplace(t, up, e, k); }
    BagReplace(t, up, e, OwnKeys);
    Swap(Keys(t'), Keys(Sub(t, up)), Keys(t), Keys(e), Keys(r) + multiset{sep});
  }

  lemma ParentInsertOk(s: Store, t: Tree, h: nat, m: Mode, path: Path, sep: Key, r: Tree, e: Tree, c: seq<PageId>)
    requires Ok(t, h, Inf, Inf, m, true) && AtParent(s, t, h, m, path, sep, r, e, c) && |e.keys| <= m.caps.inner
    ensures Ok(Replace(t, Up(path), e), h, Inf, Inf, m, true)
  {
    ReplaceOk(t, h, m, Up(path), e);
  }

  // ---------------------------------------------------------------- a full parent

  /** The halves of a node with one key too many; the middle key moves up. */
  function LeftHalf(e: Tree): Tree
    requires e.Node? && |e.keys| < |e.kids|
  {
    var i := SplitPoint(|e.keys|);
    Node(e.id, e.keys[..i], e.kids[..i + 1])
  }

  function RightHalf(e: Tree, id: PageId): Tree
    requires e.Node? && 0 < |e.keys| < |e.kids|
  {
    var i := SplitPoint(|e.keys|);
    Node(id, e.keys[i + 1..], e.kids[i + 1..])
  }

  lemma HalvesBag<A>(e: Tree, id: PageId, own: (PageId, seq<Key>) -> multiset<A>)
    requires e.Node? && 0 < |e.keys| < |e.kids|
    ensures Bags(LeftHalf(e).kids, own) + Bags(RightHalf(e, id).kids, own) == Bags(e.kids, own)
  {
    var i := SplitPoint(|e.keys|);
    BagsConcat(e.kids[..i + 1], e.kids[i + 1..], own);
    assert e.kids == e.kids[..i + 1] + e.kids[i + 1..];
  }

  lemma HalvesKeys(e: Tree, id: PageId)
    requires e.Node? && 0 < |e.keys| < |e.kids|
    ensures Keys(LeftHalf(e)) + (Keys(RightHalf(e, id)) + multiset{e.keys[SplitPoint(|e.keys|)]}) == Keys(e)
  {
    HalvesBag(e, id, OwnKeys);
    var i := SplitPoint(|e.keys|);
    assert e.keys == e.keys[..i] + [e.keys[i]] + e.keys[i + 1..];
  }

  lemma HalvesOk(e: Tree, id: PageId, h: nat, lo: Bound, hi: Bound, m: Mode)
    requires e.Node? && h > 0 && KidsOk(e.keys, e.kids, h, lo, hi, m) && |e.keys| == m.caps.inner + 1
    requires m.caps.inner >= 2
    ensures var sep := e.keys[SplitPoint(|e.keys|)];
            && Ok(LeftHalf(e), h + 1, lo, At(sep), m, false)
            && Ok(RightHalf(e, id), h + 1, At(sep), hi, m, false)
            && Above(lo, sep) && Below(sep, hi, true)
            && Ok(LeftHalf(e), h + 1, lo, hi, m, false)
            && Ok(LeftHalf(e), h + 1, lo, hi, m, true)
  {
    var i := SplitPoint(|e.keys|);
    LeafSplitSizes(m.caps.inner);
    SplitKids(e.keys, e.kids, h, lo, hi, m, i);
    assert Above(lo, e.keys[i]) && Below(e.keys[i], hi, true);
    Widen(LeftHalf(e), h + 1, lo, At(e.keys[i]), hi, m, false);
  }

  /** The pages after a parent split: the parent rewritten to its left half, the right half
      on a new page. */
  function SplitStore(s: Store, e: Tree, c: seq<PageId>, id: PageId): Store
    requires e.Node? && 0 < |e.keys| < |c|
  {
    var i := SplitPoint(|e.keys|);
    s.(inners := s.inners[e.id := InnerNode(e.keys[..i], c[..i + 1])][id := InnerNode(e.keys[i + 1..], c[i + 1..])])
  }

  lemma SplitStoreSame(s: Store, e: Tree, c: seq<PageId>, id: PageId)
    requires e.Node? && 0 < |e.keys| < |c|
    ensures SameBut(s, SplitStore(s, e, c, id), {e.id, id})
  {
  }

  lemma SplitRepresents(s: Store, e: Tree, c: seq<PageId>, id: PageId)
    requires ChildrenMatch(s, e, c) && 0 < |e.keys| && |e.kids| == |e.keys| + 1
    requires e.id in s.inners && e.id !in s.leaves && e.id !in Bags(e.kids, OwnPage)
    requires id !in s.Ids() && id !in Bags(e.kids, OwnPage)
    ensures var s' := SplitStore(s, e, c, id); Represents(s', LeftHalf(e)) && Represents(s', RightHalf(e, id))
  {
    var s', i := SplitStore(s, e, c, id), SplitPoint(|e.keys|);
    HalvesBag(e, id, OwnPage);
    SplitStoreSame(s, e, c, id);
    RewriteInner(s, s', LeftHalf(e), c[..i + 1], {e.id, id});
    RewriteInner(s, s', RightHalf(e, id), c[i + 1..], {e.id, id});
  }

  lemma SplitBags(p: PageId, id: PageId, l: multiset<PageId>, r: multiset<PageId>, kids: multiset<PageId>,
                  x: multiset<PageId>)
    requires l + r == kids + x
    ensures (multiset{p} + l) + (multiset{id} + r) == (multiset{p} + kids) + (x + multiset{id})
  {
    forall a ensures ((multiset{p} + l) + (multiset{id} + r))[a] == ((multiset{p} + kids) + (x + multiset{id}))[a] {
      assert (l + r)[a] == (kids + x)[a];
    }
  }

  lemma SplitPageBag(t: Tree, up: Path, r: Tree, e: Tree, id: PageId)
    requires ValidPath(t, up) && Sub(t, up).Node? && e.Node? && 0 < |e.keys| < |e.kids|
    requires Bags(e.kids, OwnPage) == Bags(Sub(t, up).kids, OwnPage) + Pages(r) && e.id == Sub(t, up).id
    ensures Pages(Replace(t, up, LeftHalf(e))) + Pages(RightHalf(e, id)) == Pages(t) + (Pages(r) + multiset{id})
  {
    var p, l, r' := Sub(t, up), LeftHalf(e), RightHalf(e, id);
    HalvesBag(e, id, OwnPage);
    SplitBags(p.id, id, Bags(l.kids, OwnPage), Bags(r'.kids, OwnPage), Bags(p.kids, OwnPage), Pages(r));
    BagReplace(t, up, l, OwnPage);
    Cancel(Pages(Replace(t, up, l)), Pages(p), Pages(t), Pages(l), Pages(r'), Pages(r) + multiset{id});
  }

  lemma SplitBothRepresents(s: Store, t: Tree, up: Path, r: Tree, e: Tree, c: seq<PageId>, id: PageId, s': Store)
    requires Represents(s, t) && Owns(s, Pages(t) + Pages(r)) && id !in s.Ids()
    requires ValidPath(t, up) && Sub(t, up).Node? && Sub(t, up).id in s.inners && Sub(t, up).id !in s.leaves
    requires ChildrenMatch(s, e, c) && e.id == Sub(t, up).id && 0 < |e.keys| && |e.kids| == |e.keys| + 1
    requires Bags(e.kids, OwnPage) == Bags(Sub(t, up).kids, OwnPage) + Pages(r)
    requires s' == SplitStore(s, e, c, id)
    ensures Represents(s', Replace(t, up, LeftHalf(e))) && Represents(s', RightHalf(e, id))
  {
    ApartFromSelf(s, t, up, r);
    OwnsDistinct(s, t, Pages(r));
    BagReplace(t, up, t, OwnPage);
    assert (Pages(t) + Pages(r))[id] == 0;
    SplitRepresents(s, e, c, id);
    SplitStoreSame(s, e, c, id);
    RepresentsReplace(s, s', t, up, LeftHalf(e));
  }

  lemma SplitPages(s: Store, t: Tree, up: Path, r: Tree, e: Tree, c: seq<PageId>, id: PageId)
    requires Represents(s, t) && Owns(s, Pages(t) + Pages(r)) && id !in s.Ids()
    requires ValidPath(t, up) && Sub(t, up).Node? && Sub(t, up).id in s.inners && Sub(t, up).id !in s.leaves
    requires ChildrenMatch(s, e, c) && e.id == Sub(t, up).id && 0 < |e.keys| && |e.kids| == |e.keys| + 1
    requires Bags(e.kids, OwnPage) == Bags(Sub(t, up).kids, OwnPage) + Pages(r)
    ensures var s', t', r' := SplitStore(s, e, c, id), Replace(t, up, LeftHalf(e)), RightHalf(e, id);
            Stored(s', t', r')
  {
    SplitBothRepresents(s, t, up, r, e, c, id, SplitStore(s, e, c, id));
    SplitPageBag(t, up, r, e, id);
    OwnsOneMore(s, SplitStore(s, e, c, id), Pages(t) + Pages(r), id, Pages(t) + (Pages(r) + multiset{id}));
  }

  lemma OwnsOneMore(s: Store, s': Store, ps: multiset<PageId>, id: PageId, ps': multiset<PageId>)
    requires Owns(s, ps) && id !in s.Ids()
    requires s'.leaves.Keys == s.leaves.Keys && s'.inners.Keys == s.inners.Keys + {id}
    requires ps' == ps + multiset{id}
    ensures Owns(s', ps')
  {
  }

  /** The parent is full: it is split in turn, and its own right half becomes the pending one. */
  lemma ParentSplit(s: Store, t: Tree, h: nat, m: Mode, path: Path, sep: Key, r: Tree, e: Tree, c: seq<PageId>,
                    id: PageId)
    requires Pending(s, t, h, m, path, sep, r) && AtParent(s, t, h, m, path, sep, r, e, c)
    requires |e.keys| == m.caps.inner + 1 && id !in s.Ids() && m.caps.inner >= 2
    ensures var t', sep', r' := Replace(t, Up(path), LeftHalf(e)), e.keys[SplitPoint(|e.keys|)], RightHalf(e, id);
            && Pending(SplitStore(s, e, c, id), t', h, m, Up(path), sep', r')
            && (forall k :: Attached(t', Up(path), sep', r', k) == Attached(t, path, sep, r, k))
            && Keys(t') + (Keys(r') + multiset{sep'}) == Keys(t) + (Keys(r) + multiset{sep})
  {
    var up, l, r', sep' := Up(path), LeftHalf(e), RightHalf(e, id), e.keys[SplitPoint(|e.keys|)];
    var t' := Replace(t, up, l);
    ParentSplitOk(s, t, h, m, path, sep, r, e, c, id);
    SplitPages(s, t, up, r, e, c, id);
    ParentSplitAttached(s, t, h, m, path, sep, r, e, c, id);
    HalvesKeys(e, id);
    BagReplace(t, up, l, OwnKeys);
    Cancel(Keys(t'), Keys(Sub(t, up)), Keys(t), Keys(l), Keys(r') + multiset{sep'}, Keys(r) + multiset{sep});
  }

  lemma ParentSplitOk(s: Store, t: Tree, h: nat, m: Mode, path: Path, sep: Key, r: Tree, e: Tree, c: seq<PageId>,
                      id: PageId)
    requires Ok(t, h, Inf, Inf, m, true) && AtParent(s, t, h, m, path, sep, r, e, c)
    requires |e.keys| == m.caps.inner + 1 && m.caps.inner >= 2
    ensures PendingOk(Replace(t, Up(path), LeftHalf(e)), h, m, Up(path), e.keys[SplitPoint(|e.keys|)], RightHalf(e, id))
  {
    var up, l := Up(path), LeftHalf(e);
    HalvesOk(e, id, h - |path|, LoAt(t, up), HiAt(t, up), m);
    ReplaceOk(t, h, m, up, l);
    SubReplace(t, up, l);
  }

  lemma ParentSplitAttached(s: Store, t: Tree, h: nat, m: Mode, path: Path, sep: Key, r: Tree, e: Tree, c: seq<PageId>,
                            id: PageId)
    requires AtParent(s, t, h, m, path, sep, r, e, c)
    ensures var t', sep', r' := Replace(t, Up(path), LeftHalf(e)), e.keys[SplitPoint(|e.keys|)], RightHalf(e, id);
            ValidPath(t', Up(path)) && forall k :: Attached(t', Up(path), sep', r', k) == Attached(t, path, sep, r, k)
  {
    var up, l, r', sep' := Up(path), LeftHalf(e), RightHalf(e, id), e.keys[SplitPoint(|e.keys|)];
    SubReplace(t, up, l);
    forall k ensures Attached(Replace(t, up, l), up, sep', r', k) == Attached(t, path, sep, r, k) {
      HalvesAttached(t, up, e, id, k);
    }
  }

  /** Replacing a node by its left half and detaching the right half changes no search. */
  lemma HalvesAttached(t: Tree, up: Path, e: Tree, id: PageId, k: Key)
    requires ValidPath(t, up) && e.Node? && e.id == Sub(t, up).id
    requires 0 < |e.keys| && |e.kids| == |e.keys| + 1 && Sorted(e.keys)
    ensures ValidPath(Replace(t, up, LeftHalf(e)), up)
    ensures Attached(Replace(t, up, LeftHalf(e)), up, e.keys[SplitPoint(|e.keys|)], RightHalf(e, id), k) ==
            if Routes(t, up, k) then Lookup(e, k) else Lookup(t, k)
  {
    SubReplace(t, up, LeftHalf(e));
    LookupReplace(t, up, LeftHalf(e), k);
    SplitLookup(e.id, e.id, id, e.keys, e.kids, SplitPoint(|e.keys|), k);
  }
}
