/**
  The B-tree object: its page maps, root, size and height, changed in place by insert and
  erase.  The ghost field `tree` is the value those maps stand for.
 */
module BTrees {
  import opened Options
  import opened PageReferences
  import opened Trees
  import opened Stores
  import opened Rebalancing
  import opened Inserting
  import opened Space

  datatype Status = Done | InvalidReference | Duplicate | NotFound | OutOfMemory | Rejected

  // ---------------------------------------------------------------- nodes

  /** Binary search for the first key not below k. */
  method SearchLowerBound(ks: seq<Key>, k: Key) returns (i: nat)
    requires Sorted(ks)
    ensures i == LowerBound(ks, k)
  {
    var lo, hi := 0, |ks|;
    while lo < hi
      invariant 0 <= lo <= hi <= |ks|
      invariant forall j :: 0 <= j < lo ==> ks[j] < k
      invariant forall j :: hi <= j < |ks| ==> k <= ks[j]
    {
      var mid := lo + (hi - lo) / 2;
      if ks[mid] < k { lo := mid + 1; } else { hi := mid; }
    }
    LowerBoundIs(ks, k, lo);
    i := lo;
  }

  function LeafAssign(ks: seq<Key>, rs: seq<PageReference>, cap: nat): Option<LeafNode> {
    if |ks| != |rs| || |ks| > cap then None else Some(LeafNode(ks, rs))
  }

  function InnerAssign(ks: seq<Key>, c: seq<PageId>, cap: nat): Option<InnerNode> {
    if |c| != |ks| + 1 || |ks| > cap then None else Some(InnerNode(ks, c))
  }

  /** Refuses a bad index, a full node and a key the node already has. */
  function InnerInsert(n: InnerNode, i: nat, k: Key, child: PageId, cap: nat): Option<InnerNode> {
    if i > |n.keys| || i + 1 > |n.children| || |n.keys| >= cap || k in n.keys then None
    else Some(InnerNode(InsertAt(n.keys, i, k), InsertAt(n.children, i + 1, child)))
  }

  // ---------------------------------------------------------------- what an insert changes

  /** The leaf the descent for k ends in. */
  function LeafFor(t: Tree, k: Key): Tree {
    match t
    case Leaf(_, _, _) => t
    case Node(_, ks, kids) => if LowerBound(ks, k) < |kids| then LeafFor(kids[LowerBound(ks, k)], k) else t
  }

  /** k is a separator on its own search path. */
  predicate OnPath(t: Tree, k: Key) {
    match t
    case Leaf(_, _, _) => false
    case Node(_, ks, kids) => k in ks || (LowerBound(ks, k) < |kids| && OnPath(kids[LowerBound(ks, k)], k))
  }

  /** The key that inserting k moves out of its leaf, if the leaf is full. */
  function Median(t: Tree, k: Key, caps: Caps): Option<Key> {
    var ks := LeafFor(t, k).keys;
    if |ks| < caps.leaf then None else
    var all := InsertAt(ks, LowerBound(ks, k), k);
    Some(all[SplitPoint(|all|)])
  }

  /** The mode that survives inserting k. */
  function AfterInsert(t: Tree, k: Key, m: Mode): Mode {
    if OnPath(t, k) then m.(strict := false) else m
  }

  /** A successful insert is a map update, less the promoted median. */
  function Updated(t: Tree, key: Key, v: PageReference, caps: Caps, k: Key): Option<PageReference> {
    if Median(t, key, caps) == Some(k) then None else if k == key then Some(v) else Lookup(t, k)
  }

  lemma {:induction false} LeafForSub(t: Tree, path: Path, k: Key)
    requires ValidPath(t, path) && Routes(t, path, k)
    ensures LeafFor(t, k) == LeafFor(Sub(t, path), k)
    ensures OnPath(Sub(t, path), k) ==> OnPath(t, k)
    decreases |path|
  {
    if path != [] { LeafForSub(t, path[..|path| - 1], k); }
  }

  lemma {:induction false} BoundsOnPath(t: Tree, path: Path, k: Key)
    requires ValidPath(t, path) && Routes(t, path, k)
    ensures Above(LoAt(t, path), k) && Below(k, HiAt(t, path), false)
    ensures !OnPath(t, k) ==> Below(k, HiAt(t, path), true)
    decreases |path|
  {
    if path != [] {
      var up := path[..|path| - 1];
      BoundsOnPath(t, up, k);
      LeafForSub(t, up, k);
    }
  }

  lemma {:induction false} Loosen(t: Tree, h: nat, lo: Bound, hi: Bound, m: Mode, root: bool)
    requires Ok(t, h, lo, hi, m, root)
    ensures Ok(t, h, lo, hi, m.(strict := false), root)
  {
    if t.Node? {
      forall i | 0 <= i < |t.kids|
        ensures Ok(t.kids[i], h - 1, LoOf(t.keys, lo, i), HiOf(t.keys, hi, i), m.(strict := false), false)
      {
        Loosen(t.kids[i], h - 1, LoOf(t.keys, lo, i), HiOf(t.keys, hi, i), m, false);
      }
    }
  }

  // ---------------------------------------------------------------- the leaf of an insert

  /** The leaf's entries with the new one. */
  function WithEntry(x: Tree, key: Key, v: PageReference): Tree
    requires x.Leaf? && |x.keys| == |x.refs|
  {
    var i := LowerBound(x.keys, key);
    Leaf(x.id, InsertAt(x.keys, i, key), InsertAt(x.refs, i, v))
  }

  lemma WithEntryWithin(x: Tree, key: Key, v: PageReference, lo: Bound, hi: Bound, strict: bool)
    requires x.Leaf? && |x.keys| == |x.refs| && Sorted(x.keys) && key !in x.keys
    requires Within(x.keys, lo, hi, strict) && Above(lo, key) && Below(key, hi, strict)
    ensures var y := WithEntry(x, key, v);
            Sorted(y.keys) && |y.keys| == |y.refs| == |x.keys| + 1 && Within(y.keys, lo, hi, strict)
  {
    SortedInsert(x.keys, LowerBound(x.keys, key), key);
  }

  lemma WithEntryKeys(x: Tree, key: Key, v: PageReference)
    requires x.Leaf? && |x.keys| == |x.refs|
    ensures multiset(WithEntry(x, key, v).keys) == multiset(x.keys) + multiset{key}
  {
    var i := LowerBound(x.keys, key);
    assert x.keys == x.keys[..i] + x.keys[i..];
  }

  /** Room in the leaf: the map is updated at key. */
  lemma LeafInsertEffect(t: Tree, path: Path, key: Key, v: PageReference, caps: Caps)
    requires ValidPath(t, path) && Routes(t, path, key)
    requires var x := Sub(t, path);
             x.Leaf? && |x.keys| == |x.refs| && Sorted(x.keys) && key !in x.keys && |x.keys| < caps.leaf
    ensures var t' := Replace(t, path, WithEntry(Sub(t, path), key, v));
            && (forall k :: Lookup(t', k) == Updated(t, key, v, caps, k))
            && Keys(t') == Keys(t) + multiset{key}
  {
    var x := Sub(t, path);
    var y := WithEntry(x, key, v);
    LeafForSub(t, path, key);
    forall k ensures Lookup(Replace(t, path, y), k) == Updated(t, key, v, caps, k) {
      LookupReplace(t, path, y, k);
      WithEntryLookup(x, key, v, k);
      if Routes(t, path, k) { RouteLookup(t, path, k); }
    }
    WithEntryKeys(x, key, v);
    BagReplace(t, path, y, OwnKeys);
    Swap(Keys(Replace(t, path, y)), Keys(x), Keys(t), Keys(y), multiset{key});
  }

  lemma MedianIs(t: Tree, path: Path, key: Key, v: PageReference, caps: Caps)
    requires ValidPath(t, path) && Routes(t, path, key)
    requires var x := Sub(t, path); x.Leaf? && |x.keys| == |x.refs| && caps.leaf <= |x.keys|
    ensures var y := WithEntry(Sub(t, path), key, v); Median(t, key, caps) == Some(y.keys[SplitPoint(|y.keys|)])
  {
    LeafForSub(t, path, key);
  }

  lemma WithEntryLookup(x: Tree, key: Key, v: PageReference, k: Key)
    requires x.Leaf? && |x.keys| == |x.refs| && Sorted(x.keys) && key !in x.keys
    ensures Lookup(WithEntry(x, key, v), k) == if k == key then Some(v) else Lookup(x, k)
  {
    LeafInsertLookup(x.id, x.keys, x.refs, key, v, k);
  }

  /** A leaf y split around entry i, with the left half written where x was. */
  lemma CutAttached(t: Tree, path: Path, y: Tree, i: nat, sib: PageId, k: Key)
    requires ValidPath(t, path) && y.Leaf? && y.id == Sub(t, path).id
    requires Sorted(y.keys) && |y.keys| == |y.refs| && i < |y.keys|
    ensures var l, r := Leaf(y.id, y.keys[..i], y.refs[..i]), Leaf(sib, y.keys[i + 1..], y.refs[i + 1..]);
            && ValidPath(Replace(t, path, l), path)
            && Attached(Replace(t, path, l), path, y.keys[i], r, k) ==
               if !Routes(t, path, k) then Lookup(t, k) else if k == y.keys[i] then None else Lookup(y, k)
  {
    var l := Leaf(y.id, y.keys[..i], y.refs[..i]);
    SubReplace(t, path, l);
    LookupReplace(t, path, l, k);
    LeafCutLookup(y.id, sib, y.keys, y.refs, i, k);
  }

  lemma CutKeys(t: Tree, path: Path, y: Tree, i: nat, sib: PageId, key: Key)
    requires ValidPath(t, path) && y.Leaf? && |y.keys| == |y.refs| && i < |y.keys| && Sub(t, path).Leaf?
    requires multiset(y.keys) == multiset(Sub(t, path).keys) + multiset{key}
    ensures var l, r := Leaf(y.id, y.keys[..i], y.refs[..i]), Leaf(sib, y.keys[i + 1..], y.refs[i + 1..]);
            Keys(Replace(t, path, l)) + (Keys(r) + multiset{y.keys[i]}) == Keys(t) + multiset{key}
  {
    var x, l, r := Sub(t, path), Leaf(y.id, y.keys[..i], y.refs[..i]), Leaf(sib, y.keys[i + 1..], y.refs[i + 1..]);
    assert y.keys == y.keys[..i] + [y.keys[i]] + y.keys[i + 1..];
    assert Keys(l) + (Keys(r) + multiset{y.keys[i]}) == Keys(x) + multiset{key};
    BagReplace(t, path, l, OwnKeys);
    Cancel(Keys(Replace(t, path, l)), Keys(x), Keys(t), Keys(l), Keys(r) + multiset{y.keys[i]}, multiset{key});
  }

  /** No room: the map is updated at key and loses the median. */
  lemma LeafSplitEffect(t: Tree, h: nat, m: Mode, path: Path, key: Key, v: PageReference, y: Tree, i: nat, sib: PageId)
    requires ValidPath(t, path) && Routes(t, path, key)
    requires Ok(t, h, Inf, Inf, m, true) && m.caps.leaf >= 2
    requires var x := Sub(t, path);
             && x.Leaf? && key !in x.keys && |x.keys| == |x.refs| == m.caps.leaf && Sorted(x.keys)
             && y == WithEntry(x, key, v) && i == SplitPoint(|y.keys|)
    ensures var l, r := Leaf(y.id, y.keys[..i], y.refs[..i]), Leaf(sib, y.keys[i + 1..], y.refs[i + 1..]);
            && ValidPath(Replace(t, path, l), path)
            && (forall k :: Attached(Replace(t, path, l), path, y.keys[i], r, k) == Updated(t, key, v, m.caps, k))
            && Keys(Replace(t, path, l)) + (Keys(r) + multiset{y.keys[i]}) == Keys(t) + multiset{key}
  {
    var x, l, r := Sub(t, path), Leaf(y.id, y.keys[..i], y.refs[..i]), Leaf(sib, y.keys[i + 1..], y.refs[i + 1..]);
    SubReplace(t, path, l);
    forall k ensures Attached(Replace(t, path, l), path, y.keys[i], r, k) == Updated(t, key, v, m.caps, k) {
      LeafSplitLookup(t, h, m, path, key, v, y, i, sib, k);
    }
    WithEntryKeys(x, key, v);
    CutKeys(t, path, y, i, sib, key);
  }

  lemma LeafSplitLookup(t: Tree, h: nat, m: Mode, path: Path, key: Key, v: PageReference, y: Tree, i: nat, sib: PageId,
                        k: Key)
    requires ValidPath(t, path) && Routes(t, path, key)
    requires Ok(t, h, Inf, Inf, m, true) && m.caps.leaf >= 2
    requires var x := Sub(t, path);
             && x.Leaf? && key !in x.keys && |x.keys| == |x.refs| == m.caps.leaf && Sorted(x.keys)
             && y == WithEntry(x, key, v) && i == SplitPoint(|y.keys|)
    ensures var l, r := Leaf(y.id, y.keys[..i], y.refs[..i]), Leaf(sib, y.keys[i + 1..], y.refs[i + 1..]);
            && ValidPath(Replace(t, path, l), path)
            && Attached(Replace(t, path, l), path, y.keys[i], r, k) == Updated(t, key, v, m.caps, k)
  {
    var x := Sub(t, path);
    assert Sorted(y.keys) by { SortedInsert(x.keys, LowerBound(x.keys, key), key); }
    CutAttached(t, path, y, i, sib, k);
    SplitUpdated(t, h, m, path, key, v, y, i, k);
  }

  lemma SplitUpdated(t: Tree, h: nat, m: Mode, path: Path, key: Key, v: PageReference, y: Tree, i: nat, k: Key)
    requires ValidPath(t, path) && Routes(t, path, key) && Ok(t, h, Inf, Inf, m, true)
    requires var x := Sub(t, path);
             && x.Leaf? && key !in x.keys && |x.keys| == |x.refs| == m.caps.leaf && Sorted(x.keys)
             && y == WithEntry(x, key, v) && i == SplitPoint(|y.keys|) && i < |y.keys|
    ensures Updated(t, key, v, m.caps, k) ==
            if !Routes(t, path, k) then Lookup(t, k) else if k == y.keys[i] then None else Lookup(y, k)
  {
    MedianIs(t, path, key, v, m.caps);
    if Routes(t, path, k) {
      WithEntryLookup(Sub(t, path), key, v, k);
      RouteLookup(t, path, k);
    } else {
      MedianRoutes(t, h, m, path, key, v);
    }
  }

  lemma MedianRoutes(t: Tree, h: nat, m: Mode, path: Path, key: Key, v: PageReference)
    requires ValidPath(t, path) && Routes(t, path, key) && Ok(t, h, Inf, Inf, m, true)
    requires Sub(t, path).Leaf? && |Sub(t, path).keys| == |Sub(t, path).refs|
    ensures var y := WithEntry(Sub(t, path), key, v); Routes(t, path, y.keys[SplitPoint(|y.keys|)])
  {
    var x := Sub(t, path);
    var y := WithEntry(x, key, v);
    var k := y.keys[SplitPoint(|y.keys|)];
    SubOk(t, h, m, path);
    if k != key {
      assert k in x.keys;
      InBoundsRoutes(t, h, m, path, k);
    }
  }

  /** t' is t with the detached half r attached beside the node at path. */
  ghost predicate HasAttached(t: Tree, path: Path, sep: Key, r: Tree, t': Tree)
    requires ValidPath(t, path)
  {
    && (forall k :: Lookup(t', k) == Attached(t, path, sep, r, k))
    && Keys(t') == Keys(t) + (Keys(r) + multiset{sep})
  }

  /** A right half pending at path in t has become one pending at path' in t'. */
  ghost predicate PassedOn(t: Tree, path: Path, sep: Key, r: Tree, t': Tree, path': Path, sep': Key, r': Tree)
    requires ValidPath(t, path) && ValidPath(t', path')
  {
    && (forall k :: Attached(t', path', sep', r', k) == Attached(t, path, sep, r, k))
    && Keys(t') + (Keys(r') + multiset{sep'}) == Keys(t) + (Keys(r) + multiset{sep})
  }

  lemma AttachedAbove(t: Tree, path: Path, sep: Key, r: Tree, t': Tree, path': Path, sep': Key, r': Tree, t'': Tree)
    requires ValidPath(t, path) && ValidPath(t', path')
    requires PassedOn(t, path, sep, r, t', path', sep', r') && HasAttached(t', path', sep', r', t'')
    ensures HasAttached(t, path, sep, r, t'')
  {
  }

  /** ParentSplit, for named results. */
  lemma SplitStoreIs(s: Store, e: Tree, keys: seq<Key>, c: seq<PageId>, id: PageId, s': Store)
    requires e.Node? && keys == e.keys && 0 < |keys| < |c| && s'.leaves == s.leaves
    requires var i := |keys| / 2;
             s'.inners == s.inners[e.id := InnerNode(keys[..i], c[..i + 1])][id := InnerNode(keys[i + 1..], c[i + 1..])]
    ensures s' == SplitStore(s, e, c, id)
  {
  }

  lemma SplitReady(s: Store, t: Tree, h: nat, m: Mode, path: Path, sep: Key, r: Tree, e: Tree, c: seq<PageId>,
                   id: PageId, s': Store, t': Tree, sep': Key)
    requires Pending(s, t, h, m, path, sep, r) && AtParent(s, t, h, m, path, sep, r, e, c)
    requires |e.keys| == m.caps.inner + 1 && id !in s.Ids() && m.caps.inner >= 2
    requires s' == SplitStore(s, e, c, id) && t' == Replace(t, Up(path), LeftHalf(e))
    requires sep' == e.keys[SplitPoint(|e.keys|)]
    ensures Pending(s', t', h, m, Up(path), sep', RightHalf(e, id))
    ensures t'.id == t.id && Sub(t', Up(path)).id == e.id
    ensures forall k :: Attached(t', Up(path), sep', RightHalf(e, id), k) == Attached(t, path, sep, r, k)
    ensures Keys(t') + (Keys(RightHalf(e, id)) + multiset{sep'}) == Keys(t) + (Keys(r) + multiset{sep})
  {
    ParentSplit(s, t, h, m, path, sep, r, e, c, id);
    SubReplace(t, Up(path), LeftHalf(e));
  }

  /** A successful insert: the map updated less the median, and one more key. */
  ghost predicate HasInserted(t: Tree, key: Key, v: PageReference, caps: Caps, t': Tree) {
    && (forall k :: Lookup(t', k) == Updated(t, key, v, caps, k))
    && Keys(t') == Keys(t) + multiset{key}
  }

  /** LeafSplit, for named results. */
  lemma LeafSplitReady(s: Store, t: Tree, h: nat, m: Mode, path: Path, key: Key, v: PageReference, y: Tree, i: nat,
                       l: Tree, r: Tree, s': Store)
    requires Good(s, t, h, m) && ValidPath(t, path) && m.caps.leaf >= 2
    requires Sub(t, path).Leaf? && |Sub(t, path).keys| == |Sub(t, path).refs| == m.caps.leaf
    requires key !in Sub(t, path).keys
    requires Above(LoAt(t, path), key) && Below(key, HiAt(t, path), m.strict)
    requires y == WithEntry(Sub(t, path), key, v) && i == SplitPoint(|y.keys|)
    requires l == Leaf(y.id, y.keys[..i], y.refs[..i]) && r == Leaf(r.id, y.keys[i + 1..], y.refs[i + 1..])
    requires r.id !in s.Ids()
    requires s' == s.(leaves := s.leaves[l.id := LeafNode(l.keys, l.refs)][r.id := LeafNode(r.keys, r.refs)])
    ensures Pending(s', Replace(t, path, l), h, m, path, y.keys[i], r)
    ensures Replace(t, path, l).id == t.id && Sub(Replace(t, path, l), path).id == l.id
  {
    SubOk(t, h, m, path);
    WithEntryWithin(Sub(t, path), key, v, LoAt(t, path), HiAt(t, path), m.strict);
    LeafSplit(s, t, h, m, path, y, i, l, r, s');
    SubReplace(t, path, l);
  }

  lemma NotThere(ks: seq<Key>, k: Key)
    requires Sorted(ks) && (LowerBound(ks, k) < |ks| ==> ks[LowerBound(ks, k)] != k)
    ensures k !in ks
  {
  }

  lemma LeafIsReady(s: Store, t: Tree, h: nat, m: Mode, path: Path, key: Key)
    requires Good(s, t, h, m) && ValidPath(t, path) && Routes(t, path, key) && Sub(t, path).Leaf?
    requires OnPath(t, key) ==> !m.strict
    ensures |path| < h && var x := Sub(t, path); |x.keys| == |x.refs| && |x.keys| <= m.caps.leaf && Sorted(x.keys)
    ensures Above(LoAt(t, path), key) && Below(key, HiAt(t, path), m.strict)
  {
    SubOk(t, h, m, path);
    BoundsOnPath(t, path, key);
  }

  /** A leaf with room, for named results. */
  lemma LeafInsertReady(s: Store, t: Tree, h: nat, m: Mode, path: Path, key: Key, v: PageReference)
    requires Good(s, t, h, m) && ValidPath(t, path) && Routes(t, path, key)
    requires Sub(t, path).Leaf? && |Sub(t, path).keys| < m.caps.leaf && key !in Sub(t, path).keys
    requires Above(LoAt(t, path), key) && Below(key, HiAt(t, path), m.strict)
    ensures |Sub(t, path).keys| == |Sub(t, path).refs|
    ensures var y := WithEntry(Sub(t, path), key, v);
            && Good(s.(leaves := s.leaves[y.id := LeafNode(y.keys, y.refs)]), Replace(t, path, y), h, m)
            && Replace(t, path, y).id == t.id && HasInserted(t, key, v, m.caps, Replace(t, path, y))
  {
    SubOk(t, h, m, path);
    var x := Sub(t, path);
    var y := WithEntry(x, key, v);
    WithEntryWithin(x, key, v, LoAt(t, path), HiAt(t, path), m.strict);
    LeafRewrite(s, t, h, m, path, y.keys, y.refs);
    LeafInsertEffect(t, path, key, v, m.caps);
    SubReplace(t, path, y);
  }

  // ---------------------------------------------------------------- pages left

  /** How many pages the space manager can still hand out. */
  ghost function Spare(live: set<PageId>): int { MAX_PAGE - RESERVED + 1 - |live| }

  lemma SpareLeft(live: set<PageId>)
    requires Spare(live) > 0
    ensures !(forall p :: Managed(p) ==> p in live)
  {
    if forall p :: Managed(p) ==> p in live {
      var all := FreeSpace.Interval(RESERVED, MAX_PAGE - RESERVED + 1);
      assert all <= live;
      Subset(all, live);
    }
  }

  lemma {:induction false} Subset(a: set<PageId>, b: set<PageId>)
    requires a <= b
    ensures |a| <= |b|
    decreases a
  {
    if x :| x in a { Subset(a - {x}, b - {x}); }
  }

  class BTree {
    const space: SpaceManager
    const caps: Caps
    var rootId: PageId
    var size: nat
    var height: nat
    var leaves: map<PageId, LeafNode>
    var inners: map<PageId, InnerNode>
    ghost var tree: Tree

    function Maps(): Store reads this { Store(leaves, inners) }

    ghost predicate Empty() reads this { rootId == INVALID_PAGE }

    /** What find returns. */
    ghost function Value(k: Key): Option<PageReference> reads this {
      if Empty() then None else Lookup(tree, k)
    }

    ghost function KeyBag(): multiset<Key> reads this {
      if Empty() then multiset{} else Keys(tree)
    }

    /** The tree's pages are all live, and live pages are never handed out again. */
    ghost predicate SpaceOk() reads this, space, space.pages, space.freeMap {
      space.Valid() && Maps().Ids() <= space.Live()
    }

    /** The live pages that are not the tree's. */
    ghost function Foreign(): set<PageId> reads this, space, space.pages { space.Live() - Maps().Ids() }

    ghost predicate Valid(m: Mode) reads this, space, space.pages, space.freeMap {
      && SpaceOk()
      && m.caps == caps && caps.leaf >= 2 && caps.inner >= 2
      && (Empty() ==> Maps() == Store(map[], map[]) && height == 0)
      && (!Empty() ==> rootId == tree.id && Good(Maps(), tree, height, m))
    }

    constructor (space: SpaceManager, caps: Caps)
      requires space.Valid() && caps.leaf >= 2 && caps.inner >= 2
      ensures this.space == space && this.caps == caps
      ensures Empty() && size == 0 && KeyBag() == multiset{}
      ensures forall m: Mode :: m.caps == caps ==> Valid(m)
    {
      this.space, this.caps := space, caps;
      rootId, size, height, leaves, inners, tree := INVALID_PAGE, 0, 0, map[], map[], Leaf(INVALID_PAGE, [], []);
    }

    /** The frames visited, and the leaf they lead to. */
    method DescendToLeaf(key: Key, ghost m: Mode) returns (path: Path, leaf: PageId)
      requires Valid(m) && !Empty()
      ensures ValidPath(tree, path) && Routes(tree, path, key)
      ensures Sub(tree, path).Leaf? && Sub(tree, path).id == leaf && leaf in leaves
      ensures leaves[leaf] == LeafNode(Sub(tree, path).keys, Sub(tree, path).refs)
      ensures |path| + 1 == height && Above(LoAt(tree, path), key) && Below(key, HiAt(tree, path), false)
    {
      path, leaf := [], rootId;
      while leaf !in leaves
        invariant ValidPath(tree, path) && Routes(tree, path, key)
        invariant Sub(tree, path).id == leaf
        invariant Represents(Maps(), Sub(tree, path)) && |path| < height
        invariant Ok(Sub(tree, path), height - |path|, LoAt(tree, path), HiAt(tree, path), m, path == [])
        decreases height - |path|
      {
        var i := SearchLowerBound(inners[leaf].keys, key);
        ghost var up := path;
        path := path + [Frame(leaf, i)];
        assert path[..|path| - 1] == up;
        leaf := inners[leaf].children[i];
        SubOk(tree, height, m, path);
      }
      BoundsOnPath(tree, path, key);
    }

    /** Finds exactly the entry some leaf holds. */
    method Find(key: Key, ghost m: Mode) returns (r: Option<PageReference>)
      requires Valid(m)
      ensures r == Value(key)
      ensures !Empty() ==> forall v :: r == Some(v) <==> Holds(tree, key, v)
    {
      if rootId == INVALID_PAGE { return None; }
      var path, leaf := DescendToLeaf(key, m);
      RouteLookup(tree, path, key);
      SubOk(tree, height, m, path);
      forall v ensures Lookup(tree, key) == Some(v) <==> Holds(tree, key, v) {
        LookupIffHolds(tree, height, Inf, Inf, m, true, key, v);
      }
      var n := leaves[leaf];
      var i := SearchLowerBound(n.keys, key);
      if i < |n.keys| && n.keys[i] == key { return Some(n.refs[i]); }
      return None;
    }

    method AllocatePage() returns (id: PageId)
      requires SpaceOk()
      modifies space.pages, space.freeMap
      ensures SpaceOk()
      ensures Spare(old(space.Live())) > 0 ==> id != INVALID_PAGE
      ensures id != INVALID_PAGE ==>
                && id !in Maps().Ids() && Spare(space.Live()) == Spare(old(space.Live())) - 1
                && id !in old(space.Live()) && space.Live() == old(space.Live()) + {id}
    {
      if Spare(space.Live()) > 0 { SpareLeft(space.Live()); }
      id := space.AllocatePage();
    }

    // -------------------------------------------------------------- insert

    /** A split is under way: the detached half r waits to be attached beside the node at path. */
    ghost predicate Splitting(m: Mode, path: Path, sep: Key, r: Tree) reads this, space, space.pages, space.freeMap {
      && SpaceOk()
      && m.caps == caps && caps.leaf >= 2 && caps.inner >= 2
      && !Empty() && rootId == tree.id
      && Pending(Maps(), tree, height, m, path, sep, r)
    }

    /** The state with the given page maps and tree. */
    method Adopt(leaves': map<PageId, LeafNode>, inners': map<PageId, InnerNode>, root': PageId, height': nat,
                 ghost t: Tree, ghost m: Mode)
      requires space.Valid() && Store(leaves', inners').Ids() <= space.Live()
      requires m.caps == caps && caps.leaf >= 2 && caps.inner >= 2
      requires root' == t.id && root' in space.Live() && Good(Store(leaves', inners'), t, height', m)
      modifies this
      ensures Valid(m) && !Empty() && tree == t && size == old(size) && height == height'
      ensures leaves == leaves' && inners == inners'
    {
      leaves, inners, rootId, height, tree := leaves', inners', root', height', t;
    }

    method AdoptSplit(leaves': map<PageId, LeafNode>, inners': map<PageId, InnerNode>, ghost t: Tree, ghost m: Mode,
                      ghost path: Path, ghost sep: Key, ghost r: Tree)
      requires space.Valid() && Store(leaves', inners').Ids() <= space.Live()
      requires m.caps == caps && caps.leaf >= 2 && caps.inner >= 2
      requires rootId == t.id && !Empty() && Pending(Store(leaves', inners'), t, height, m, path, sep, r)
      modifies this
      ensures Splitting(m, path, sep, r) && tree == t && size == old(size)
      ensures leaves == leaves' && inners == inners'
    {
      leaves, inners, tree := leaves', inners', t;
    }

    /** Attaches a detached right half, splitting full ancestors and growing a new root when
        the path runs out.  The parent never refuses the separator as a duplicate. */
    method InsertIntoParent(path: Path, promoted: Key, leftId: PageId, rightId: PageId, ghost m: Mode, ghost r: Tree)
      returns (st: Status)
      requires Splitting(m, path, promoted, r)
      requires leftId == Sub(tree, path).id && rightId == r.id
      modifies this, space.pages, space.freeMap
      ensures size == old(size)
      ensures st == Done || st == OutOfMemory
      ensures Spare(old(space.Live())) > |path| ==> st == Done
      ensures st == Done ==> !Empty() && Valid(m) && HasAttached(old(tree), path, promoted, r, tree)
      ensures st == Done ==> Spare(space.Live()) >= Spare(old(space.Live())) - |path| - 1 && Foreign() == old(Foreign())
      decreases |path|
    {
      if path == [] {
        st := NewRoot(promoted, leftId, rightId, m, r);
        return;
      }
      var frame := path[|path| - 1];
      ghost var e, c := ReachParent(Maps(), tree, height, m, path, promoted, r);
      var parent := inners[frame.page];
      if |parent.keys| < caps.inner {
        AttachToParent(path, promoted, rightId, m, r, e, c);
        return Done;
      }
      st := SplitAndInsertInternal(path, promoted, rightId, m, r, e, c);
    }

    method NewRoot(promoted: Key, leftId: PageId, rightId: PageId, ghost m: Mode, ghost r: Tree) returns (st: Status)
      requires Splitting(m, [], promoted, r) && leftId == tree.id && rightId == r.id
      modifies this, space.pages, space.freeMap
      ensures size == old(size)
      ensures st == Done || st == OutOfMemory
      ensures Spare(old(space.Live())) > 0 ==> st == Done
      ensures st == Done ==> !Empty() && Valid(m) && HasAttached(old(tree), [], promoted, r, tree)
      ensures st == Done ==> Spare(space.Live()) == Spare(old(space.Live())) - 1 && Foreign() == old(Foreign())
    {
      var id := AllocatePage();
      if id == INVALID_PAGE { return OutOfMemory; }
      GrowRoot(Maps(), tree, height, m, promoted, r, id);
      Adopt(leaves, inners[id := InnerNode([promoted], [leftId, rightId])], id, height + 1,
            Node(id, [promoted], [tree, r]), m);
      return Done;
    }

    /** The parent's page, child index and rewritten content agree with the pending split. */
    ghost predicate ParentReady(path: Path, key: Key, rightChild: PageId, e: Tree, c: seq<PageId>)
      requires path != []
      reads this
    {
      var f := path[|path| - 1];
      && e.Node? && f.page == e.id && f.page in inners && key !in inners[f.page].keys
      && f.idx <= |inners[f.page].keys| && f.idx + 1 <= |inners[f.page].children|
      && e.keys == InsertAt(inners[f.page].keys, f.idx, key)
      && c == InsertAt(inners[f.page].children, f.idx + 1, rightChild)
    }

    method AttachToParent(path: Path, key: Key, rightChild: PageId, ghost m: Mode, ghost r: Tree, ghost e: Tree,
                          ghost c: seq<PageId>)
      requires Splitting(m, path, key, r) && path != [] && rightChild == r.id
      requires AtParent(Maps(), tree, height, m, path, key, r, e, c) && ParentReady(path, key, rightChild, e, c)
      requires |inners[path[|path| - 1].page].keys| < caps.inner
      modifies this
      ensures size == old(size) && !Empty() && Valid(m) && HasAttached(old(tree), path, key, r, tree)
      ensures Foreign() == old(Foreign())
    {
      var f := path[|path| - 1];
      ParentInsert(Maps(), tree, height, m, path, key, r, e, c);
      var n := InnerInsert(inners[f.page], f.idx, key, rightChild, caps.inner);
      SubReplace(tree, Up(path), e);
      Adopt(leaves, inners[f.page := n.value], rootId, height, Replace(tree, Up(path), e), m);
    }

    /** Splits a full parent around its middle key and passes the right half on. */
    method SplitAndInsertInternal(path: Path, key: Key, rightChild: PageId, ghost m: Mode, ghost r: Tree, ghost e: Tree,
                                  ghost c: seq<PageId>)
      returns (st: Status)
      requires Splitting(m, path, key, r) && path != [] && rightChild == r.id
      requires AtParent(Maps(), tree, height, m, path, key, r, e, c) && ParentReady(path, key, rightChild, e, c)
      requires |inners[path[|path| - 1].page].keys| == caps.inner
      modifies this, space.pages, space.freeMap
      ensures size == old(size)
      ensures st == Done || st == OutOfMemory
      ensures Spare(old(space.Live())) > |path| ==> st == Done
      ensures st == Done ==> !Empty() && Valid(m) && HasAttached(old(tree), path, key, r, tree)
      ensures st == Done ==> Spare(space.Live()) >= Spare(old(space.Live())) - |path| - 1 && Foreign() == old(Foreign())
      decreases |path|, 0
    {
      var f := path[|path| - 1];
      var keys := InsertAt(inners[f.page].keys, f.idx, key);
      var children := InsertAt(inners[f.page].children, f.idx + 1, rightChild);
      var promoted, sib;
      st, promoted, sib := SplitNode(f.page, keys, children, path, key, m, r, e);
      if st == Done {
        ghost var t := tree;
        st := InsertIntoParent(Up(path), promoted, f.page, sib, m, RightHalf(e, sib));
        if st == Done { AttachedAbove(old(tree), path, key, r, t, Up(path), promoted, RightHalf(e, sib), tree); }
      }
    }

    /** Writes the left half of the keys and children back to the page and the right half to
        a new page. */
    method SplitNode(page: PageId, keys: seq<Key>, children: seq<PageId>, ghost path: Path, ghost key: Key,
                     ghost m: Mode, ghost r: Tree, ghost e: Tree)
      returns (st: Status, promoted: Key, sib: PageId)
      requires Splitting(m, path, key, r) && path != []
      requires AtParent(Maps(), tree, height, m, path, key, r, e, children)
      requires page == e.id && page in inners && keys == e.keys && |keys| == caps.inner + 1
      modifies this, space.pages, space.freeMap
      ensures size == old(size)
      ensures st == Done || st == OutOfMemory
      ensures Spare(old(space.Live())) > 0 ==> st == Done
      ensures st == Done ==>
                && Splitting(m, Up(path), promoted, RightHalf(e, sib))
                && promoted == e.keys[SplitPoint(|e.keys|)]
                && tree == Replace(old(tree), Up(path), LeftHalf(e)) && Sub(tree, Up(path)).id == page
                && Spare(space.Live()) == Spare(old(space.Live())) - 1 && Foreign() == old(Foreign())
                && PassedOn(old(tree), path, key, r, tree, Up(path), promoted, RightHalf(e, sib))
    {
      ghost var s := Maps();
      st, promoted, sib := WriteHalves(page, keys, children);
      if st == Done {
        SplitStoreIs(s, e, keys, children, sib, Maps());
        ghost var t := Replace(tree, Up(path), LeftHalf(e));
        SplitReady(s, tree, height, m, path, key, r, e, children, sib, Store(leaves, inners), t, promoted);
        AdoptSplit(leaves, inners, t, m, Up(path), promoted, RightHalf(e, sib));
      }
    }

    method WriteHalves(page: PageId, keys: seq<Key>, children: seq<PageId>)
      returns (st: Status, promoted: Key, sib: PageId)
      requires SpaceOk() && page in inners && |keys| == caps.inner + 1 && |children| == |keys| + 1 && caps.inner >= 2
      modifies this, space.pages, space.freeMap
      ensures size == old(size) && leaves == old(leaves) && tree == old(tree) && rootId == old(rootId)
      ensures height == old(height)
      ensures st == Done || st == OutOfMemory
      ensures Spare(old(space.Live())) > 0 ==> st == Done
      ensures st == Done ==>
                && var i := |keys| / 2;
                && promoted == keys[i] && SpaceOk() && sib !in old(Maps().Ids())
                && Spare(space.Live()) == Spare(old(space.Live())) - 1 && Foreign() == old(Foreign())
                && inners == old(inners)[page := InnerNode(keys[..i], children[..i + 1])]
                                       [sib := InnerNode(keys[i + 1..], children[i + 1..])]
    {
      var i := |keys| / 2;
      promoted, sib := keys[i], INVALID_PAGE;
      LeafSplitSizes(caps.inner);
      var left := InnerAssign(keys[..i], children[..i + 1], caps.inner);
      inners := inners[page := left.value];
      assert inners.Keys == old(inners).Keys;
      sib := AllocatePage();
      if sib == INVALID_PAGE { return OutOfMemory, promoted, sib; }
      var right := InnerAssign(keys[i + 1..], children[i + 1..], caps.inner);
      inners := inners[sib := right.value];
      st := Done;
    }

    /** Splits a full leaf.  Its middle entry's key goes to the parent; its reference goes
        nowhere. */
    method SplitAndInsertLeaf(leaf: PageId, path: Path, key: Key, value: PageReference, ghost m: Mode)
      returns (st: Status)
      requires Valid(m) && !Empty() && LeafReady(path, leaf, key, m)
      requires |leaves[leaf].keys| == caps.leaf
      modifies this, space.pages, space.freeMap
      ensures size == old(size)
      ensures st == Done || st == OutOfMemory
      ensures Spare(old(space.Live())) > |path| + 1 ==> st == Done
      ensures st == Done ==> !Empty() && Valid(m) && HasInserted(old(tree), key, value, caps, tree)
      ensures st == Done ==> Spare(space.Live()) >= Spare(old(space.Live())) - |path| - 2 && Foreign() == old(Foreign())
    {
      ghost var x := Sub(tree, path);
      ghost var y := WithEntry(x, key, value);
      var i := SearchLowerBound(leaves[leaf].keys, key);
      var keys, refs := InsertAt(leaves[leaf].keys, i, key), InsertAt(leaves[leaf].refs, i, value);
      var promoted, sib;
      ghost var r;
      st, promoted, sib, r := SplitLeafPages(leaf, keys, refs, path, key, value, m);
      if st == Done {
        st := InsertIntoParent(path, promoted, leaf, sib, m, r);
      }
    }

    /** The descent for key ended in this leaf, which does not have the key. */
    ghost predicate LeafReady(path: Path, leaf: PageId, key: Key, m: Mode) reads this {
      && ValidPath(tree, path) && Routes(tree, path, key)
      && var x := Sub(tree, path);
      && x.Leaf? && x.id == leaf && leaf in leaves && leaves[leaf] == LeafNode(x.keys, x.refs)
      && |x.keys| == |x.refs| && Sorted(x.keys) && key !in x.keys
      && Above(LoAt(tree, path), key) && Below(key, HiAt(tree, path), m.strict)
    }

    method SplitLeafPages(leaf: PageId, keys: seq<Key>, refs: seq<PageReference>, ghost path: Path, ghost key: Key,
                          ghost value: PageReference, ghost m: Mode)
      returns (st: Status, promoted: Key, sib: PageId, ghost r: Tree)
      requires Valid(m) && !Empty() && LeafReady(path, leaf, key, m)
      requires |leaves[leaf].keys| == caps.leaf
      requires Leaf(leaf, keys, refs) == WithEntry(Sub(tree, path), key, value)
      modifies this, space.pages, space.freeMap
      ensures size == old(size)
      ensures st == Done || st == OutOfMemory
      ensures Spare(old(space.Live())) > 0 ==> st == Done
      ensures st == Done ==>
                && Splitting(m, path, promoted, r) && Sub(tree, path).id == leaf && r.id == sib
                && Spare(space.Live()) == Spare(old(space.Live())) - 1 && Foreign() == old(Foreign())
                && (forall k :: Attached(tree, path, promoted, r, k) == Updated(old(tree), key, value, caps, k))
                && Keys(tree) + (Keys(r) + multiset{promoted}) == Keys(old(tree)) + multiset{key}
    {
      ghost var s := Maps();
      st, promoted, sib := WriteLeafHalves(leaf, keys, refs);
      r := Leaf(sib, [], []);
      if st == Done {
        ghost var y, i := Leaf(leaf, keys, refs), SplitPoint(|keys|);
        ghost var l := Leaf(leaf, keys[..i], refs[..i]);
        r := Leaf(sib, keys[i + 1..], refs[i + 1..]);
        LeafSplitReady(s, tree, height, m, path, key, value, y, i, l, r, Store(leaves, inners));
        LeafSplitEffect(tree, height, m, path, key, value, y, i, sib);
        AdoptSplit(leaves, inners, Replace(tree, path, l), m, path, promoted, r);
      }
    }

    method WriteLeafHalves(leaf: PageId, keys: seq<Key>, refs: seq<PageReference>)
      returns (st: Status, promoted: Key, sib: PageId)
      requires SpaceOk() && leaf in leaves && |keys| == |refs| == caps.leaf + 1 && caps.leaf >= 2
      modifies this, space.pages, space.freeMap
      ensures size == old(size) && inners == old(inners) && tree == old(tree) && rootId == old(rootId)
      ensures height == old(height)
      ensures st == Done || st == OutOfMemory
      ensures Spare(old(space.Live())) > 0 ==> st == Done
      ensures st == Done ==>
                && var i := |keys| / 2;
                && promoted == keys[i] && SpaceOk() && sib !in old(Maps().Ids())
                && Spare(space.Live()) == Spare(old(space.Live())) - 1 && Foreign() == old(Foreign())
                && leaves == old(leaves)[leaf := LeafNode(keys[..i], refs[..i])]
                                       [sib := LeafNode(keys[i + 1..], refs[i + 1..])]
    {
      var i := |keys| / 2;
      promoted, sib := keys[i], INVALID_PAGE;
      LeafSplitSizes(caps.leaf);
      var left := LeafAssign(keys[..i], refs[..i], caps.leaf);
      leaves := leaves[leaf := left.value];
      assert leaves.Keys == old(leaves).Keys;
      sib := AllocatePage();
      if sib == INVALID_PAGE { return OutOfMemory, promoted, sib; }
      var right := LeafAssign(keys[i + 1..], refs[i + 1..], caps.leaf);
      leaves := leaves[sib := right.value];
      st := Done;
    }

    method InsertInLeaf(leaf: PageId, index: nat, ghost path: Path, key: Key, value: PageReference, ghost m: Mode)
      requires Valid(m) && !Empty() && LeafReady(path, leaf, key, m)
      requires |leaves[leaf].keys| < caps.leaf && index == LowerBound(leaves[leaf].keys, key)
      modifies this
      ensures size == old(size) && !Empty() && Valid(m) && HasInserted(old(tree), key, value, caps, tree)
      ensures Foreign() == old(Foreign())
    {
      var n := leaves[leaf];
      LeafInsertReady(Maps(), tree, height, m, path, key, value);
      var n' := LeafNode(InsertAt(n.keys, index, key), InsertAt(n.refs, index, value));
      Adopt(leaves[leaf := n'], inners, rootId, height, Replace(tree, path, WithEntry(Sub(tree, path), key, value)), m);
    }

    /** The first key makes a leaf that is the root. */
    method InsertFirst(key: Key, value: PageReference, ghost m: Mode) returns (st: Status)
      requires Valid(m) && Empty() && value.IsValid()
      modifies this, space.pages, space.freeMap
      ensures Spare(old(space.Live())) > 0 ==> st == Done
      ensures st == Done || st == OutOfMemory
      ensures st == Done ==>
                && !Empty() && Valid(m) && size == old(size) + 1 && KeyBag() == multiset{key}
                && Spare(space.Live()) == Spare(old(space.Live())) - 1 && Foreign() == old(Foreign())
                && forall k :: Value(k) == if k == key then Some(value) else None
    {
      var id := AllocatePage();
      if id == INVALID_PAGE { return OutOfMemory; }
      ghost var t := Leaf(id, [key], [value]);
      var ls := map[id := LeafNode([key], [value])];
      assert Good(Store(ls, map[]), t, 1, m);
      Adopt(ls, map[], id, 1, t, m);
      size := size + 1;
      assert multiset([key]) == multiset{key};
      forall k ensures Value(k) == if k == key then Some(value) else None {
        LowerBoundIs([key], k, if k <= key then 0 else 1);
      }
      st := Done;
    }

    /** Refuses an invalid reference and a key that find would find.  Otherwise, given enough
        free pages, it succeeds, keeps the whole-tree invariant, adds the key to the bag of
        keys, and updates the map at the key less the promoted median. */
    method Insert(key: Key, value: PageReference, ghost m: Mode) returns (st: Status)
      requires Valid(m)
      modifies this, space.pages, space.freeMap
      ensures st == InvalidReference <==> value.pageId == 0xFFFF_FFFF
      ensures st == Duplicate <==> value.pageId != 0xFFFF_FFFF && old(Value(key)).Some?
      ensures st == Done || st == InvalidReference || st == Duplicate || st == OutOfMemory
      ensures st == InvalidReference || st == Duplicate ==>
                && Valid(m) && size == old(size) && KeyBag() == old(KeyBag()) && Foreign() == old(Foreign())
                && forall k :: Value(k) == old(Value(k))
      ensures value.IsValid() && old(Value(key)).None? && Spare(old(space.Live())) > old(height) ==> st == Done
      ensures st == Done ==>
                && !Empty() && size == old(size) + 1
                && Valid(if old(Empty()) then m else AfterInsert(old(tree), key, m))
                && KeyBag() == old(KeyBag()) + multiset{key}
                && Spare(space.Live()) >= Spare(old(space.Live())) - old(height) - 1 && Foreign() == old(Foreign())
                && forall k :: Value(k) == if old(Empty()) then (if k == key then Some(value) else None)
                                           else Updated(old(tree), key, value, caps, k)
    {
      if !value.IsValid() { return InvalidReference; }
      if rootId == INVALID_PAGE {
        st := InsertFirst(key, value, m);
        return;
      }
      st := InsertBelow(key, value, m);
    }

    /** Insert, into a tree that has a root. */
    method InsertBelow(key: Key, value: PageReference, ghost m: Mode) returns (st: Status)
      requires Valid(m) && !Empty() && value.IsValid()
      modifies this, space.pages, space.freeMap
      ensures old(Lookup(tree, key)).Some? <==> st == Duplicate
      ensures st == Duplicate ==> Valid(m) && size == old(size) && tree == old(tree) && !Empty()
      ensures st == Duplicate ==> Foreign() == old(Foreign())
      ensures st == Done || st == Duplicate || st == OutOfMemory
      ensures old(Lookup(tree, key)).None? && Spare(old(space.Live())) > old(height) ==> st == Done
      ensures st == Done ==>
                && !Empty() && size == old(size) + 1
                && Valid(AfterInsert(old(tree), key, m)) && HasInserted(old(tree), key, value, caps, tree)
                && Spare(space.Live()) >= Spare(old(space.Live())) - old(height) - 1 && Foreign() == old(Foreign())
    {
      var path, leaf, index, duplicate := DescendForInsert(key, m);
      if duplicate { return Duplicate; }
      st := InsertHere(leaf, index, path, key, value, AfterInsert(tree, key, m));
    }

    /** Into the leaf if it has room, else by splitting it. */
    method InsertHere(leaf: PageId, index: nat, path: Path, key: Key, value: PageReference, ghost m: Mode)
      returns (st: Status)
      requires Valid(m) && !Empty() && LeafReady(path, leaf, key, m) && |path| < height
      requires |leaves[leaf].keys| <= caps.leaf && index == LowerBound(leaves[leaf].keys, key)
      modifies this, space.pages, space.freeMap
      ensures st == Done || st == OutOfMemory
      ensures Spare(old(space.Live())) > old(height) ==> st == Done
      ensures st == Done ==>
               !Empty() && size == old(size) + 1 && Valid(m) && HasInserted(old(tree), key, value, caps, tree)
      ensures st == Done ==>
                Spare(space.Live()) >= Spare(old(space.Live())) - old(height) - 1 && Foreign() == old(Foreign())
    {
      if |leaves[leaf].keys| < caps.leaf {
        InsertInLeaf(leaf, index, path, key, value, m);
        st := Done;
      } else {
        st := SplitAndInsertLeaf(leaf, path, key, value, m);
      }
      if st == Done { CountOneMore(m); }
    }

    /** The leaf and index for a new key, or the finding that the leaf has it already. */
    method DescendForInsert(key: Key, ghost m: Mode) returns (path: Path, leaf: PageId, index: nat, duplicate: bool)
      requires Valid(m) && !Empty()
      ensures duplicate <==> Lookup(tree, key).Some?
      ensures !duplicate ==>
                && Valid(AfterInsert(tree, key, m)) && LeafReady(path, leaf, key, AfterInsert(tree, key, m))
                && index == LowerBound(leaves[leaf].keys, key)
                && |path| < height && |leaves[leaf].keys| <= caps.leaf
    {
      ghost var m' := AfterInsert(tree, key, m);
      Loosen(tree, height, Inf, Inf, m, true);
      path, leaf := DescendToLeaf(key, m');
      LeafIsReady(Maps(), tree, height, m', path, key);
      RouteLookup(tree, path, key);
      var n := leaves[leaf];
      index := SearchLowerBound(n.keys, key);
      duplicate := index < |n.keys| && n.keys[index] == key;
      if !duplicate { NotThere(n.keys, key); }
    }

    method CountOneMore(ghost m: Mode)
      requires Valid(m)
      modifies this`size
      ensures Valid(m) && size == old(size) + 1
    {
      size := size + 1;
    }
  }
}
