/**
  The tree validator: what it accepts, and what that is worth to a search.
 */
module TreeValidation {
  import opened Options
  import opened PageReferences
  import opened Trees
  import opened Stores

  // ---------------------------------------------------------------- what is accepted

  predicate AtLeast(lo: Bound, k: Key) { lo.At? ==> lo.key <= k }

  predicate AtMost(k: Key, hi: Bound) { hi.At? ==> k <= hi.key }

  /** Leaf keys lie in [lo, hi): a key may equal the separator on its left. */
  predicate LeafRange(ks: seq<Key>, lo: Bound, hi: Bound) {
    forall i :: 0 <= i < |ks| ==> AtLeast(lo, ks[i]) && Below(ks[i], hi, true)
  }

  predicate InnerRange(ks: seq<Key>, lo: Bound, hi: Bound) {
    forall i :: 0 <= i < |ks| ==> AtLeast(lo, ks[i]) && AtMost(ks[i], hi)
  }

  /** A subtree of height h the validator accepts between two bounds. */
  predicate Accepted(t: Tree, h: nat, lo: Bound, hi: Bound, caps: Caps) {
    match t
    case Leaf(_, ks, rs) =>
      h == 1 && |ks| == |rs| && |ks| <= caps.leaf && Sorted(ks) && LeafRange(ks, lo, hi)
    case Node(_, ks, kids) =>
      && h > 1 && |kids| == |ks| + 1 && |ks| <= caps.inner && Sorted(ks) && InnerRange(ks, lo, hi)
      && forall i :: 0 <= i < |kids| ==>
           kids[i].id != INVALID_PAGE && Accepted(kids[i], h - 1, LoOf(ks, lo, i), HiOf(ks, hi, i), caps)
  }

  // ---------------------------------------------------------------- leaf keys in order

  function LeafKeys(t: Tree): seq<Key>
    decreases t, 1
  {
    match t
    case Leaf(_, ks, _) => ks
    case Node(_, _, kids) => LeafKeysOf(kids)
  }

  function LeafKeysOf(ts: seq<Tree>): seq<Key>
    decreases ts, 0
  {
    if ts == [] then [] else LeafKeys(ts[0]) + LeafKeysOf(ts[1..])
  }

  /** In an accepted tree all leaf keys, read in order, increase strictly. */
  lemma {:induction false} LeafKeysSorted(t: Tree, h: nat, lo: Bound, hi: Bound, caps: Caps)
    requires Accepted(t, h, lo, hi, caps)
    ensures Sorted(LeafKeys(t)) && LeafRange(LeafKeys(t), lo, hi)
    decreases t, 1
  {
    if t.Node? { KidKeysSorted(t.keys, t.kids, 0, h - 1, lo, hi, caps); }
  }

  lemma {:induction false} KidKeysSorted(ks: seq<Key>, kids: seq<Tree>, i: nat, h: nat, lo: Bound, hi: Bound,
                                         caps: Caps)
    requires |kids| == |ks| + 1 && i <= |kids| && Sorted(ks) && InnerRange(ks, lo, hi)
    requires forall j :: 0 <= j < |kids| ==> Accepted(kids[j], h, LoOf(ks, lo, j), HiOf(ks, hi, j), caps)
    ensures Sorted(LeafKeysOf(kids[i..]))
    ensures i < |kids| ==> LeafRange(LeafKeysOf(kids[i..]), LoOf(ks, lo, i), hi)
    ensures i == 0 ==> LeafRange(LeafKeysOf(kids), lo, hi)
    decreases kids, 0, |kids| - i
  {
    assert i == 0 ==> kids[i..] == kids;
    if i < |kids| {
      LeafKeysSorted(kids[i], h, LoOf(ks, lo, i), HiOf(ks, hi, i), caps);
      KidKeysSorted(ks, kids, i + 1, h, lo, hi, caps);
      assert kids[i..][1..] == kids[i + 1..];
      JoinSorted(LeafKeys(kids[i]), LeafKeysOf(kids[i + 1..]), LoOf(ks, lo, i), HiOf(ks, hi, i), hi);
    }
  }

  lemma JoinSorted(a: seq<Key>, b: seq<Key>, lo: Bound, mid: Bound, hi: Bound)
    requires Sorted(a) && Sorted(b) && LeafRange(a, lo, mid)
    requires b != [] ==> mid.At? && LeafRange(b, mid, hi) && AtLeast(lo, mid.key)
    requires mid.At? ==> AtMost(mid.key, hi)
    requires mid.Inf? ==> hi.Inf?
    ensures Sorted(a + b) && LeafRange(a + b, lo, hi)
  {
  }

  // ---------------------------------------------------------------- searches

  /** Some leaf pairs k with r, and no separator above it equals k. */
  predicate HoldsClear(t: Tree, k: Key, r: PageReference) {
    match t
    case Leaf(_, ks, rs) => exists i :: 0 <= i < |ks| && i < |rs| && ks[i] == k && rs[i] == r
    case Node(_, ks, kids) => k !in ks && exists i :: 0 <= i < |kids| && HoldsClear(kids[i], k, r)
  }

  lemma {:induction false} HoldsInRange(t: Tree, h: nat, lo: Bound, hi: Bound, caps: Caps, k: Key, r: PageReference)
    requires Accepted(t, h, lo, hi, caps) && Holds(t, k, r)
    ensures AtLeast(lo, k) && Below(k, hi, true)
  {
    if t.Node? {
      var i :| 0 <= i < |t.kids| && Holds(t.kids[i], k, r);
      HoldsInRange(t.kids[i], h - 1, LoOf(t.keys, lo, i), HiOf(t.keys, hi, i), caps, k, r);
    }
  }

  lemma {:induction false} ClearHolds(t: Tree, k: Key, r: PageReference)
    requires HoldsClear(t, k, r)
    ensures Holds(t, k, r)
  {
    if t.Node? {
      var i :| 0 <= i < |t.kids| && HoldsClear(t.kids[i], k, r);
      ClearHolds(t.kids[i], k, r);
    }
  }

  /** In an accepted tree a search finds a leaf entry exactly when no separator above it
      equals the key: the search turns left at an equal separator, the validator lets the
      entry sit on its right. */
  lemma {:induction false} FoundIffClear(t: Tree, h: nat, lo: Bound, hi: Bound, caps: Caps, k: Key, r: PageReference)
    requires Accepted(t, h, lo, hi, caps)
    ensures Lookup(t, k) == Some(r) <==> HoldsClear(t, k, r)
  {
    if t.Leaf? {
      if HoldsClear(t, k, r) {
        var i :| 0 <= i < |t.keys| && t.keys[i] == k && t.refs[i] == r;
        LowerBoundIs(t.keys, k, i);
      }
    } else {
      var j := LowerBound(t.keys, k);
      FoundIffClear(t.kids[j], h - 1, LoOf(t.keys, lo, j), HiOf(t.keys, hi, j), caps, k, r);
      if HoldsClear(t, k, r) { ClearThere(t, h, lo, hi, caps, k, r); }
      if HoldsClear(t.kids[j], k, r) { ClearHere(t, h, lo, hi, caps, k, r); }
    }
  }

  lemma ClearThere(t: Tree, h: nat, lo: Bound, hi: Bound, caps: Caps, k: Key, r: PageReference)
    requires Accepted(t, h, lo, hi, caps) && t.Node? && HoldsClear(t, k, r)
    ensures HoldsClear(t.kids[LowerBound(t.keys, k)], k, r)
  {
    var i :| 0 <= i < |t.kids| && HoldsClear(t.kids[i], k, r);
    ClearHolds(t.kids[i], k, r);
    HoldsInRange(t.kids[i], h - 1, LoOf(t.keys, lo, i), HiOf(t.keys, hi, i), caps, k, r);
    LowerBoundIs(t.keys, k, i);
  }

  lemma ClearHere(t: Tree, h: nat, lo: Bound, hi: Bound, caps: Caps, k: Key, r: PageReference)
    requires Accepted(t, h, lo, hi, caps) && t.Node? && HoldsClear(t.kids[LowerBound(t.keys, k)], k, r)
    ensures HoldsClear(t, k, r)
  {
    var j := LowerBound(t.keys, k);
    ClearHolds(t.kids[j], k, r);
    HoldsInRange(t.kids[j], h - 1, LoOf(t.keys, lo, j), HiOf(t.keys, hi, j), caps, k, r);
    Between(t.keys, j, k);
  }

  lemma Between(ks: seq<Key>, j: nat, k: Key)
    requires Sorted(ks) && j == LowerBound(ks, k) && (j < |ks| ==> k < ks[j])
    ensures k !in ks
  {
    forall i | 0 <= i < |ks| ensures ks[i] != k { }
  }

  // ---------------------------------------------------------------- trees built by inserts

  lemma {:induction false} StrictAccepted(t: Tree, h: nat, lo: Bound, hi: Bound, m: Mode, root: bool)
    requires Ok(t, h, lo, hi, m, root) && m.strict && KidsNamed(t)
    ensures Accepted(t, h, lo, hi, m.caps)
  {
    if t.Node? {
      forall i | 0 <= i < |t.kids|
        ensures Accepted(t.kids[i], h - 1, LoOf(t.keys, lo, i), HiOf(t.keys, hi, i), m.caps)
      {
        StrictAccepted(t.kids[i], h - 1, LoOf(t.keys, lo, i), HiOf(t.keys, hi, i), m, false);
      }
    }
  }

  /** Every child reference is valid. */
  predicate KidsNamed(t: Tree) {
    t.Node? ==> forall i :: 0 <= i < |t.kids| ==> t.kids[i].id != INVALID_PAGE && KidsNamed(t.kids[i])
  }

  lemma {:induction false} AcceptedStrict(t: Tree, h: nat, lo: Bound, hi: Bound, m: Mode, root: bool)
    requires Ok(t, h, lo, hi, m, root) && Accepted(t, h, lo, hi, m.caps)
    ensures Ok(t, h, lo, hi, m.(strict := true), root)
  {
    if t.Node? {
      forall i | 0 <= i < |t.kids|
        ensures Ok(t.kids[i], h - 1, LoOf(t.keys, lo, i), HiOf(t.keys, hi, i), m.(strict := true), false)
      {
        AcceptedStrict(t.kids[i], h - 1, LoOf(t.keys, lo, i), HiOf(t.keys, hi, i), m, false);
      }
    }
  }

  /** The validator accepts a tree built by inserts exactly when no leaf holds its own upper
      separator, which happens once a promoted key is inserted again. */
  lemma AcceptedIffStrict(t: Tree, h: nat, m: Mode)
    requires Ok(t, h, Inf, Inf, m, true) && KidsNamed(t)
    ensures Accepted(t, h, Inf, Inf, m.caps) <==> Ok(t, h, Inf, Inf, m.(strict := true), true)
  {
    if Accepted(t, h, Inf, Inf, m.caps) { AcceptedStrict(t, h, Inf, Inf, m, true); }
    if Ok(t, h, Inf, Inf, m.(strict := true), true) { StrictAccepted(t, h, Inf, Inf, m.(strict := true), true); }
  }

  // ---------------------------------------------------------------- the validator

  /** Following children from this page ends within n steps. */
  predicate Bounded(s: Store, page: PageId, n: nat)
    decreases n
  {
    page in s.leaves || page !in s.inners ||
    (n > 0 && forall i :: 0 <= i < |s.inners[page].children| ==> Bounded(s, s.inners[page].children[i], n - 1))
  }

  /** The tree a page stands for, unless a page is missing. */
  function TreeOf(s: Store, page: PageId, n: nat): (t: Option<Tree>)
    ensures t.Some? ==> t.value.id == page
    decreases n, 1, 0
  {
    if page in s.leaves then Some(Leaf(page, s.leaves[page].keys, s.leaves[page].refs))
    else if page !in s.inners || n == 0 then None
    else match TreesOf(s, s.inners[page].children, n - 1)
         case None => None
         case Some(kids) => Some(Node(page, s.inners[page].keys, kids))
  }

  function TreesOf(s: Store, c: seq<PageId>, n: nat): (ts: Option<seq<Tree>>)
    ensures ts.Some? ==> |ts.value| == |c| && forall i :: 0 <= i < |c| ==> TreeOf(s, c[i], n) == Some(ts.value[i])
    ensures (forall i :: 0 <= i < |c| ==> TreeOf(s, c[i], n).Some?) ==> ts.Some?
    decreases n, 2, |c|
  {
    if c == [] then Some([]) else
    match (TreeOf(s, c[0], n), TreesOf(s, c[1..], n))
    case (Some(t), Some(ts)) => Some([t] + ts)
    case _ => None
  }

  function Height(t: Tree): nat {
    match t
    case Leaf(_, _, _) => 1
    case Node(_, _, kids) => if kids == [] then 1 else 1 + Height(kids[0])
  }

  lemma {:induction false} HeightIs(t: Tree, h: nat, lo: Bound, hi: Bound, caps: Caps)
    requires Accepted(t, h, lo, hi, caps)
    ensures Height(t) == h
  {
    if t.Node? { HeightIs(t.kids[0], h - 1, LoOf(t.keys, lo, 0), HiOf(t.keys, hi, 0), caps); }
  }

  /** The page's subtree is complete, acceptable, and has its leaves at the depth already
      seen, if one was. */
  predicate Fits(s: Store, page: PageId, n: nat, depth: nat, leafDepth: nat, lo: Bound, hi: Bound, caps: Caps) {
    match TreeOf(s, page, n)
    case None => false
    case Some(t) => Accepted(t, Height(t), lo, hi, caps) && (leafDepth == 0 || leafDepth + 1 == depth + Height(t))
  }

  method CheckSorted(ks: seq<Key>) returns (ok: bool)
    ensures ok <==> Sorted(ks)
  {
    var i := 1;
    while i < |ks|
      invariant 1 <= i && (|ks| > 0 ==> i <= |ks| && Sorted(ks[..i]))
    {
      if !(ks[i - 1] < ks[i]) { return false; }
      assert ks[..i + 1] == ks[..i] + [ks[i]];
      i := i + 1;
    }
    if |ks| > 0 { assert ks[..|ks|] == ks; }
    return true;
  }

  method ValidateLeafRange(n: LeafNode, caps: Caps, lo: Bound, hi: Bound) returns (ok: bool)
    ensures forall id :: ok <==> Accepted(Leaf(id, n.keys, n.refs), 1, lo, hi, caps)
    ensures ok <==>
              && |n.refs| == |n.keys| <= caps.leaf
              && (forall i, j :: 0 <= i < j < |n.keys| ==> n.keys[i] < n.keys[j])
              && (lo.At? ==> forall i :: 0 <= i < |n.keys| ==> lo.key <= n.keys[i])
              && (hi.At? ==> forall i :: 0 <= i < |n.keys| ==> n.keys[i] < hi.key)
  {
    if |n.keys| > caps.leaf || |n.keys| != |n.refs| { return false; }
    ok := CheckSorted(n.keys);
    if !ok { return; }
    var i := 0;
    while i < |n.keys|
      invariant 0 <= i <= |n.keys| && LeafRange(n.keys[..i], lo, hi)
    {
      var key := n.keys[i];
      if lo.At? && key < lo.key { return false; }
      if hi.At? && !(key < hi.key) { return false; }
      assert n.keys[..i + 1] == n.keys[..i] + [key];
      i := i + 1;
    }
    assert n.keys[..i] == n.keys;
  }

  method ValidateInnerRange(n: InnerNode, caps: Caps, lo: Bound, hi: Bound) returns (ok: bool)
    ensures ok <==>
              |n.children| == |n.keys| + 1 && |n.keys| <= caps.inner && Sorted(n.keys) && InnerRange(n.keys, lo, hi)
    ensures ok <==>
              && |n.children| == |n.keys| + 1 && |n.keys| <= caps.inner
              && (forall i, j :: 0 <= i < j < |n.keys| ==> n.keys[i] < n.keys[j])
              && (lo.At? ==> forall i :: 0 <= i < |n.keys| ==> lo.key <= n.keys[i])
              && (hi.At? ==> forall i :: 0 <= i < |n.keys| ==> n.keys[i] <= hi.key)
  {
    if |n.keys| > caps.inner || |n.children| != |n.keys| + 1 { return false; }
    ok := CheckSorted(n.keys);
    if !ok { return; }
    var i := 0;
    while i < |n.keys|
      invariant 0 <= i <= |n.keys| && InnerRange(n.keys[..i], lo, hi)
    {
      var key := n.keys[i];
      if lo.At? && key < lo.key { return false; }
      if hi.At? && key > hi.key { return false; }
      assert n.keys[..i + 1] == n.keys[..i] + [key];
      i := i + 1;
    }
    assert n.keys[..i] == n.keys;
  }

  /** Accepts a page exactly when its subtree fits.  The pages may be any, as long as their
      child references do not loop. */
  method ValidateSubtree(s: Store, caps: Caps, page: PageId, depth: nat, leafDepth: nat, lo: Bound, hi: Bound,
                         ghost n: nat)
    returns (ok: bool, seen: nat)
    requires Bounded(s, page, n) && depth >= 1
    ensures ok <==> Fits(s, page, n, depth, leafDepth, lo, hi, caps)
    ensures ok ==> seen + 1 == depth + Height(TreeOf(s, page, n).value)
    decreases n, 1
  {
    seen := leafDepth;
    if page in s.leaves {
      if leafDepth == 0 { seen := depth; } else if leafDepth != depth { return false, seen; }
      ok := ValidateLeafRange(s.leaves[page], caps, lo, hi);
      return;
    }
    if page !in s.inners { return false, seen; }
    ok, seen := ValidateInternal(s, caps, page, depth, leafDepth, lo, hi, n);
  }

  method ValidateInternal(s: Store, caps: Caps, page: PageId, depth: nat, leafDepth: nat, lo: Bound, hi: Bound,
                          ghost n: nat)
    returns (ok: bool, seen: nat)
    requires Bounded(s, page, n) && depth >= 1 && page in s.inners && page !in s.leaves
    ensures ok <==> Fits(s, page, n, depth, leafDepth, lo, hi, caps)
    ensures ok ==> seen + 1 == depth + Height(TreeOf(s, page, n).value)
    decreases n, 0
  {
    seen := leafDepth;
    var node := s.inners[page];
    ok := ValidateInnerRange(node, caps, lo, hi);
    if !ok { return; }
    var i := 0;
    while i <= |node.keys|
      invariant 0 <= i <= |node.children|
      invariant i == 0 ==> seen == leafDepth
      invariant i > 0 ==> seen > 0 && (leafDepth == 0 || seen == leafDepth)
      invariant forall j :: 0 <= j < i ==> KidFits(s, node, j, n, depth, seen, lo, hi, caps)
    {
      var child := node.children[i];
      if child == INVALID_PAGE {
        NoFit(s, page, n, depth, leafDepth, lo, hi, caps, i, seen);
        return false, seen;
      }
      ghost var before := seen;
      var fits;
      fits, seen := ValidateSubtree(s, caps, child, depth + 1, seen, LoOf(node.keys, lo, i), HiOf(node.keys, hi, i),
                                    n - 1);
      if !fits {
        NoFit(s, page, n, depth, leafDepth, lo, hi, caps, i, before);
        return false, seen;
      }
      i := i + 1;
    }
    AllFit(s, page, n, depth, leafDepth, lo, hi, caps, seen);
  }

  /** Child j of the node is valid and fits, with its leaves at the given depth. */
  predicate KidFits(s: Store, node: InnerNode, j: nat, n: nat, depth: nat, leafDepth: nat, lo: Bound, hi: Bound,
                    caps: Caps)
    requires j < |node.children| == |node.keys| + 1 && n > 0
  {
    && node.children[j] != INVALID_PAGE && leafDepth > 0
    && Fits(s, node.children[j], n - 1, depth + 1, leafDepth, LoOf(node.keys, lo, j), HiOf(node.keys, hi, j), caps)
  }

  lemma AllFit(s: Store, page: PageId, n: nat, depth: nat, leafDepth: nat, lo: Bound, hi: Bound, caps: Caps, seen: nat)
    requires page in s.inners && page !in s.leaves && n > 0 && depth >= 1
    requires var node := s.inners[page];
             && |node.children| == |node.keys| + 1 && |node.keys| <= caps.inner && Sorted(node.keys)
             && InnerRange(node.keys, lo, hi)
             && forall j :: 0 <= j < |node.children| ==> KidFits(s, node, j, n, depth, seen, lo, hi, caps)
    requires leafDepth == 0 || seen == leafDepth
    ensures Fits(s, page, n, depth, leafDepth, lo, hi, caps) && seen + 1 == depth + Height(TreeOf(s, page, n).value)
  {
    var node := s.inners[page];
    assert KidFits(s, node, 0, n, depth, seen, lo, hi, caps);
    forall j | 0 <= j < |node.children| ensures TreeOf(s, node.children[j], n - 1).Some? {
      assert KidFits(s, node, j, n, depth, seen, lo, hi, caps);
    }
    var kids := TreesOf(s, node.children, n - 1).value;
    forall j | 0 <= j < |kids|
      ensures kids[j].id != INVALID_PAGE && Height(kids[j]) == Height(kids[0])
      ensures Accepted(kids[j], Height(kids[0]), LoOf(node.keys, lo, j), HiOf(node.keys, hi, j), caps)
    {
      assert KidFits(s, node, j, n, depth, seen, lo, hi, caps);
    }
  }

  /** A child that does not fit beside those before it spoils the whole. */
  lemma NoFit(s: Store, page: PageId, n: nat, depth: nat, leafDepth: nat, lo: Bound, hi: Bound, caps: Caps, i: nat,
              seen: nat)
    requires page in s.inners && page !in s.leaves && n > 0 && depth >= 1
    requires var node := s.inners[page];
             && i < |node.children| == |node.keys| + 1
             && (i == 0 ==> seen == leafDepth) && (i > 0 ==> KidFits(s, node, 0, n, depth, seen, lo, hi, caps))
             && (node.children[i] == INVALID_PAGE ||
                 !Fits(s, node.children[i], n - 1, depth + 1, seen, LoOf(node.keys, lo, i), HiOf(node.keys, hi, i),
                       caps))
    ensures !Fits(s, page, n, depth, leafDepth, lo, hi, caps)
  {
    var node := s.inners[page];
    if Fits(s, page, n, depth, leafDepth, lo, hi, caps) {
      var t := TreeOf(s, page, n).value;
      HeightIs(t.kids[i], Height(t) - 1, LoOf(t.keys, lo, i), HiOf(t.keys, hi, i), caps);
    }
  }

  /** An accepted tree has its leaves at one depth and its leaf keys in strictly increasing
      order, and a search finds exactly the entries whose key is no separator above them. */
  method Validate(s: Store, caps: Caps, rootId: PageId, ghost n: nat) returns (ok: bool)
    requires Bounded(s, rootId, n)
    ensures rootId == INVALID_PAGE ==> ok
    ensures rootId != INVALID_PAGE ==> (ok <==> Fits(s, rootId, n, 1, 0, Inf, Inf, caps))
    ensures ok && rootId != INVALID_PAGE ==>
              && var t := TreeOf(s, rootId, n).value;
              && Sorted(LeafKeys(t))
              && forall k, r :: Lookup(t, k) == Some(r) <==> HoldsClear(t, k, r)
  {
    if rootId == INVALID_PAGE { return true; }
    if rootId !in s.leaves && rootId !in s.inners { return false; }
    var seen;
    ok, seen := ValidateSubtree(s, caps, rootId, 1, 0, Inf, Inf, n);
    if ok {
      ghost var t := TreeOf(s, rootId, n).value;
      LeafKeysSorted(t, Height(t), Inf, Inf, caps);
      forall k, r ensures Lookup(t, k) == Some(r) <==> HoldsClear(t, k, r) {
        FoundIffClear(t, Height(t), Inf, Inf, caps, k, r);
      }
    }
  }
}
