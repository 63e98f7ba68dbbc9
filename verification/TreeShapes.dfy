/**
  What the keys and searches of a tree say about its shape: which keys are separators, which
  leaf holds a key, and how high the tree is.
 */
module TreeShapes {
  import opened Options
  import opened PageReferences
  import opened Trees
  import opened BTrees
  import TreeAudits

  // ---------------------------------------------------------------- the bag of separators

  function SepBag(t: Tree): multiset<Key>
    decreases t, 1
  {
    match t
    case Leaf(_, _, _) => multiset{}
    case Node(_, ks, kids) => multiset(ks) + SepBags(kids)
  }

  function SepBags(ts: seq<Tree>): multiset<Key>
    decreases ts, 0
  {
    if ts == [] then multiset{} else SepBag(ts[0]) + SepBags(ts[1..])
  }

  function Found(t: Tree, k: Key): nat { if Lookup(t, k).Some? then 1 else 0 }

  lemma LeafCount(ks: seq<Key>, k: Key)
    requires Sorted(ks)
    ensures multiset(ks)[k] == if LowerBound(ks, k) < |ks| && ks[LowerBound(ks, k)] == k then 1 else 0
  {
    TreeAudits.SeqOnce(ks);
    if k in ks {
      var i :| 0 <= i < |ks| && ks[i] == k;
      LowerBoundIs(ks, k, i);
    }
  }

  /** A key occurs once as a separator for every time it does, and once more if it is found. */
  lemma {:induction false} KeyCount(t: Tree, h: nat, lo: Bound, hi: Bound, m: Mode, root: bool, k: Key)
    requires Ok(t, h, lo, hi, m, root)
    ensures Keys(t)[k] == SepBag(t)[k] + Found(t, k)
    decreases t, 1
  {
    if t.Leaf? {
      LeafCount(t.keys, k);
    } else {
      KidCount(t.keys, t.kids, 0, h - 1, lo, hi, m, k);
      assert t.kids[0..] == t.kids;
    }
  }

  lemma {:induction false} KidCount(ks: seq<Key>, kids: seq<Tree>, i: nat, h: nat, lo: Bound, hi: Bound, m: Mode,
                                    k: Key)
    requires KidsOk(ks, kids, h, lo, hi, m) && i <= |kids|
    ensures var j := LowerBound(ks, k);
            Bags(kids[i..], OwnKeys)[k] == SepBags(kids[i..])[k] + if i <= j then Found(kids[j], k) else 0
    decreases kids, 0, |kids| - i
  {
    if i < |kids| {
      var j := LowerBound(ks, k);
      KeyCount(kids[i], h, LoOf(ks, lo, i), HiOf(ks, hi, i), m, false, k);
      KidCount(ks, kids, i + 1, h, lo, hi, m, k);
      assert kids[i..][1..] == kids[i + 1..];
      if Lookup(kids[i], k).Some? {
        TreeAudits.FoundKey(kids[i], k);
        TreeAudits.KeysWithin(kids[i], h, LoOf(ks, lo, i), HiOf(ks, hi, i), m, false, k);
        LowerBoundIs(ks, k, i);
      }
    }
  }

  lemma {:induction false} SepsWithin(t: Tree, h: nat, lo: Bound, hi: Bound, m: Mode, root: bool, z: Key)
    requires Ok(t, h, lo, hi, m, root) && z in SepBag(t)
    ensures Above(lo, z) && Below(z, hi, true)
  {
    if z !in t.keys {
      var i := SepInKid(t.kids, z);
      SepsWithin(t.kids[i], h - 1, LoOf(t.keys, lo, i), HiOf(t.keys, hi, i), m, false, z);
    }
  }

  lemma {:induction false} SepInKid(ts: seq<Tree>, z: Key) returns (i: nat)
    requires z in SepBags(ts)
    ensures i < |ts| && z in SepBag(ts[i])
  {
    if z in SepBag(ts[0]) {
      i := 0;
    } else {
      i := SepInKid(ts[1..], z);
      i := i + 1;
    }
  }

  lemma {:induction false} KidSep(ts: seq<Tree>, i: nat, z: Key)
    requires i < |ts| && z in SepBag(ts[i])
    ensures z in SepBags(ts)
  {
    if i > 0 { KidSep(ts[1..], i - 1, z); }
  }

  // ---------------------------------------------------------------- the leaf of a key

  /** The bounds are separators, or the outer ones, with no separator between them. */
  ghost predicate Adjacent(t: Tree, lo: Bound, hi: Bound, a: Bound, c: Bound) {
    && (a == lo || (a.At? && a.key in SepBag(t)))
    && (c == hi || (c.At? && c.key in SepBag(t)))
    && forall z :: z in SepBag(t) ==> !(Above(a, z) && Below(z, c, true))
  }

  /** The leaf holds exactly the keys found between the bounds. */
  ghost predicate Between(t: Tree, x: Tree, a: Bound, c: Bound) {
    && x.Leaf? && Sorted(x.keys) && |x.keys| == |x.refs|
    && forall y :: y in x.keys <==> Lookup(t, y).Some? && Above(a, y) && Below(y, c, false)
  }

  /** The leaf that a key belongs to holds what is found between the separators next to the
      key. */
  lemma {:induction false} LeafBlock(t: Tree, h: nat, lo: Bound, hi: Bound, m: Mode, root: bool, k: Key)
    returns (a: Bound, c: Bound)
    requires Ok(t, h, lo, hi, m, root) && Above(lo, k) && Below(k, hi, false)
    ensures Above(a, k) && Below(k, c, false) && Adjacent(t, lo, hi, a, c)
    ensures Between(t, LeafFor(t, k), a, c)
  {
    if t.Leaf? {
      a, c := lo, hi;
      forall y ensures y in t.keys <==> Lookup(t, y).Some? && Above(a, y) && Below(y, c, false) {
        LeafCount(t.keys, y);
      }
    } else {
      var i := LowerBound(t.keys, k);
      var lo', hi' := LoOf(t.keys, lo, i), HiOf(t.keys, hi, i);
      a, c := LeafBlock(t.kids[i], h - 1, lo', hi', m, false, k);
      KidAdjacent(t, h, lo, hi, m, root, i, a, c);
      KidBetween(t, h, lo, hi, m, root, i, LeafFor(t, k), a, c);
    }
  }

  /** Bounds within those of a child. */
  lemma Inside(t: Tree, h: nat, lo: Bound, hi: Bound, m: Mode, root: bool, i: nat, a: Bound, c: Bound, y: Key)
    requires Ok(t, h, lo, hi, m, root) && t.Node? && i <= |t.keys| && i < |t.kids|
    requires Adjacent(t.kids[i], LoOf(t.keys, lo, i), HiOf(t.keys, hi, i), a, c)
    ensures Above(a, y) ==> Above(LoOf(t.keys, lo, i), y)
    ensures Below(y, c, false) ==> Below(y, HiOf(t.keys, hi, i), false)
    ensures Below(y, c, true) ==> Below(y, HiOf(t.keys, hi, i), true)
  {
    var lo', hi' := LoOf(t.keys, lo, i), HiOf(t.keys, hi, i);
    if a != lo' { SepsWithin(t.kids[i], h - 1, lo', hi', m, false, a.key); }
    if c != hi' { SepsWithin(t.kids[i], h - 1, lo', hi', m, false, c.key); }
  }

  lemma KidAdjacent(t: Tree, h: nat, lo: Bound, hi: Bound, m: Mode, root: bool, i: nat, a: Bound, c: Bound)
    requires Ok(t, h, lo, hi, m, root) && t.Node? && i <= |t.keys| && i < |t.kids|
    requires Adjacent(t.kids[i], LoOf(t.keys, lo, i), HiOf(t.keys, hi, i), a, c)
    ensures Adjacent(t, lo, hi, a, c)
  {
    if a.At? && a.key in SepBag(t.kids[i]) { KidSep(t.kids, i, a.key); }
    if c.At? && c.key in SepBag(t.kids[i]) { KidSep(t.kids, i, c.key); }
    forall z | z in SepBag(t) ensures !(Above(a, z) && Below(z, c, true)) {
      Inside(t, h, lo, hi, m, root, i, a, c, z);
      if z in t.keys {
        OwnOutside(t.keys, lo, hi, i, z);
      } else {
        KidOutside(t, h, lo, hi, m, root, i, z);
      }
    }
  }

  lemma OwnOutside(ks: seq<Key>, lo: Bound, hi: Bound, i: nat, z: Key)
    requires Sorted(ks) && i <= |ks| && z in ks
    ensures !(Above(LoOf(ks, lo, i), z) && Below(z, HiOf(ks, hi, i), true))
  {
    var j :| 0 <= j < |ks| && ks[j] == z;
  }

  /** A separator below t is one of child i, or not between child i's bounds. */
  lemma KidOutside(t: Tree, h: nat, lo: Bound, hi: Bound, m: Mode, root: bool, i: nat, z: Key)
    requires Ok(t, h, lo, hi, m, root) && t.Node? && i <= |t.keys| && i < |t.kids| && z in SepBags(t.kids)
    ensures z in SepBag(t.kids[i]) || !(Above(LoOf(t.keys, lo, i), z) && Below(z, HiOf(t.keys, hi, i), true))
  {
    var j := SepInKid(t.kids, z);
    SepsWithin(t.kids[j], h - 1, LoOf(t.keys, lo, j), HiOf(t.keys, hi, j), m, false, z);
  }

  lemma KidBetween(t: Tree, h: nat, lo: Bound, hi: Bound, m: Mode, root: bool, i: nat, x: Tree, a: Bound, c: Bound)
    requires Ok(t, h, lo, hi, m, root) && t.Node? && i <= |t.keys| && i < |t.kids| && Between(t.kids[i], x, a, c)
    requires Adjacent(t.kids[i], LoOf(t.keys, lo, i), HiOf(t.keys, hi, i), a, c)
    ensures Between(t, x, a, c)
  {
    forall y ensures y in x.keys <==> Lookup(t, y).Some? && Above(a, y) && Below(y, c, false) {
      Inside(t, h, lo, hi, m, root, i, a, c, y);
      if Above(a, y) && Below(y, c, false) { LowerBoundIs(t.keys, y, i); }
    }
  }

  // ---------------------------------------------------------------- how many separators

  lemma FewSeps(ts: seq<Tree>)
    ensures |ts| >= 2 ==> |SepBags(ts)| >= |SepBag(ts[0])| + |SepBag(ts[1])|
    ensures |ts| >= 3 ==> |SepBags(ts)| >= |SepBag(ts[0])| + |SepBag(ts[1])| + |SepBag(ts[2])|
    ensures |ts| == 2 ==> |SepBags(ts)| == |SepBag(ts[0])| + |SepBag(ts[1])|
  {
    if |ts| >= 2 {
      assert |SepBags(ts)| == |SepBag(ts[0])| + |SepBags(ts[1..])|;
      assert |SepBags(ts[1..])| == |SepBag(ts[1])| + |SepBags(ts[1..][1..])|;
      if |ts| >= 3 { assert ts[1..][1..][0] == ts[2]; }
    }
  }

  lemma {:induction false} LeafSeps(ts: seq<Tree>)
    requires forall i :: 0 <= i < |ts| ==> ts[i].Leaf?
    ensures SepBags(ts) == multiset{}
  {
    if ts != [] { LeafSeps(ts[1..]); }
  }

  lemma KidsLeaves(t: Tree, h: nat, lo: Bound, hi: Bound, m: Mode, root: bool)
    requires Ok(t, h, lo, hi, m, root) && h >= 2
    ensures h == 2 ==> forall i :: 0 <= i < |t.kids| ==> t.kids[i].Leaf?
    ensures h > 2 ==> forall i :: 0 <= i < |t.kids| ==> t.kids[i].Node?
  {
    forall i | 0 <= i < |t.kids| ensures t.kids[i].Leaf? <==> h == 2 {
      assert Ok(t.kids[i], h - 1, LoOf(t.keys, lo, i), HiOf(t.keys, hi, i), m, false);
    }
  }

  lemma {:induction false} SepLeast(t: Tree, h: nat, lo: Bound, hi: Bound, m: Mode)
    requires Ok(t, h, lo, hi, m, false) && m.fill && m.caps.inner >= 2
    ensures h >= 2 ==> |SepBag(t)| >= m.caps.inner / 2
    ensures h == 2 ==> |SepBag(t)| == |t.keys|
    ensures h >= 3 ==> |SepBag(t)| >= 3 * (m.caps.inner / 2)
  {
    if h == 2 {
      KidsLeaves(t, h, lo, hi, m, false);
      LeafSeps(t.kids);
    } else if h >= 3 {
      SepLeast(t.kids[0], h - 1, LoOf(t.keys, lo, 0), HiOf(t.keys, hi, 0), m);
      SepLeast(t.kids[1], h - 1, LoOf(t.keys, lo, 1), HiOf(t.keys, hi, 1), m);
      FewSeps(t.kids);
    }
  }

  /** Few separators make a low tree. */
  lemma LowTree(t: Tree, h: nat, m: Mode)
    requires Ok(t, h, Inf, Inf, m, true) && m.fill && m.caps.inner >= 2 && |SepBag(t)| <= m.caps.inner + 1
    ensures h <= 3
  {
    if h >= 4 {
      SepLeast(t.kids[0], h - 1, LoOf(t.keys, Inf, 0), HiOf(t.keys, Inf, 0), m);
      SepLeast(t.kids[1], h - 1, LoOf(t.keys, Inf, 1), HiOf(t.keys, Inf, 1), m);
      FewSeps(t.kids);
    }
  }

  /** One separator more than an inner node holds, with an even capacity: the root has two
      children, both at their minimum. */
  lemma JustSplit(t: Tree, h: nat, m: Mode)
    requires Ok(t, h, Inf, Inf, m, true) && m.fill && m.caps.inner >= 2 && m.caps.inner % 2 == 0
    requires |SepBag(t)| == m.caps.inner + 1
    ensures h == 3 && |t.keys| == 1 && |t.kids| == 2
    ensures |t.kids[0].keys| == m.caps.inner / 2 && |t.kids[1].keys| == m.caps.inner / 2
  {
    LowTree(t, h, m);
    if h == 2 {
      KidsLeaves(t, h, Inf, Inf, m, true);
      LeafSeps(t.kids);
    } else if h == 3 {
      forall i | 0 <= i < |t.kids| ensures |SepBag(t.kids[i])| == |t.kids[i].keys| >= m.caps.inner / 2 {
        SepLeast(t.kids[i], 2, LoOf(t.keys, Inf, i), HiOf(t.keys, Inf, i), m);
      }
      FewSeps(t.kids);
    }
  }

  /** One separator: a root with two leaves. */
  lemma OneSeparator(t: Tree, h: nat, m: Mode, d: Key)
    requires Ok(t, h, Inf, Inf, m, true) && m.fill && m.caps.inner >= 2 && SepBag(t) == multiset{d}
    ensures h == 2 && t.keys == [d] && |t.kids| == 2 && t.kids[0].Leaf? && t.kids[1].Leaf?
  {
    if h >= 3 {
      SepLeast(t.kids[0], h - 1, LoOf(t.keys, Inf, 0), HiOf(t.keys, Inf, 0), m);
    } else if h == 2 {
      KidsLeaves(t, h, Inf, Inf, m, true);
      LeafSeps(t.kids);
      assert |multiset(t.keys)| == 1 && t.keys[0] in multiset(t.keys);
    }
  }
}
