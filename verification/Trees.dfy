/**
  The B-tree as a value: what the page maps of a tree stand for.

  A key is represented by its rank (see Keys.RankOrder), so that key comparison is
  integer comparison.  A search path lists (page, child index) frames from the root
  down; everything about paths recurses on the last frame, the one SearchPath::top
  returns, because splits and merges work upward from there.
 */
module Trees {
  import opened Options
  import opened PageReferences

  type Key = int

  datatype Tree =
    | Leaf(id: PageId, keys: seq<Key>, refs: seq<PageReference>)
    | Node(id: PageId, keys: seq<Key>, kids: seq<Tree>)

  /** An end of a key interval; Inf is minus or plus infinity by position. */
  datatype Bound = Inf | At(key: Key)

  /** Node capacities, in keys. */
  datatype Caps = Caps(leaf: nat, inner: nat)

  /** What is known of a tree beyond order and depth.  `strict`: no leaf holds its own
      upper separator.  `fill`: non-root nodes have at least capacity/2 keys. */
  datatype Mode = Mode(caps: Caps, strict: bool, fill: bool)

  datatype Frame = Frame(page: PageId, idx: nat)

  type Path = seq<Frame>

  // ---------------------------------------------------------------- sorted keys

  predicate Sorted(ks: seq<Key>) {
    forall i, j :: 0 <= i < j < |ks| ==> ks[i] < ks[j]
  }

  /** The first index whose key is not below k. */
  function LowerBound(ks: seq<Key>, k: Key): (i: nat)
    ensures i <= |ks|
    ensures forall j :: 0 <= j < i ==> ks[j] < k
    ensures i < |ks| ==> k <= ks[i]
  {
    if |ks| == 0 || k <= ks[0] then 0 else 1 + LowerBound(ks[1..], k)
  }

  lemma LowerBoundIs(ks: seq<Key>, k: Key, i: nat)
    requires Sorted(ks) && i <= |ks|
    requires i > 0 ==> ks[i - 1] < k
    requires i < |ks| ==> k <= ks[i]
    ensures LowerBound(ks, k) == i
  {
  }

  function InsertAt<T>(s: seq<T>, i: nat, x: T): (r: seq<T>)
    requires i <= |s|
    ensures |r| == |s| + 1 && r[i] == x
    ensures forall j :: 0 <= j < i ==> r[j] == s[j]
    ensures forall j :: i < j < |r| ==> r[j] == s[j - 1]
  {
    s[..i] + [x] + s[i..]
  }

  function RemoveAt<T>(s: seq<T>, i: nat): (r: seq<T>)
    requires i < |s|
    ensures |r| == |s| - 1
    ensures forall j :: 0 <= j < i ==> r[j] == s[j]
    ensures forall j :: i <= j < |r| ==> r[j] == s[j + 1]
  {
    s[..i] + s[i + 1..]
  }

  lemma SortedInsert(ks: seq<Key>, i: nat, k: Key)
    requires Sorted(ks) && i <= |ks|
    requires i > 0 ==> ks[i - 1] < k
    requires i < |ks| ==> k < ks[i]
    ensures Sorted(InsertAt(ks, i, k))
  {
  }

  // ---------------------------------------------------------------- the invariant

  predicate Above(lo: Bound, k: Key) { lo.At? ==> lo.key < k }

  predicate Below(k: Key, hi: Bound, strict: bool) {
    hi.At? ==> if strict then k < hi.key else k <= hi.key
  }

  function LoOf(ks: seq<Key>, lo: Bound, i: nat): Bound
    requires i <= |ks|
  {
    if i == 0 then lo else At(ks[i - 1])
  }

  function HiOf(ks: seq<Key>, hi: Bound, i: nat): Bound
    requires i <= |ks|
  {
    if i == |ks| then hi else At(ks[i])
  }

  predicate Within(ks: seq<Key>, lo: Bound, hi: Bound, strict: bool) {
    forall i :: 0 <= i < |ks| ==> Above(lo, ks[i]) && Below(ks[i], hi, strict)
  }

  predicate SizeOk(n: nat, cap: nat, fill: bool) {
    n <= cap && (fill ==> cap / 2 <= n)
  }

  /** Sorted separators strictly inside (lo, hi), one more child than separators, and
      child i a subtree of height h with keys in (sep[i-1], sep[i]]. */
  predicate KidsOk(ks: seq<Key>, kids: seq<Tree>, h: nat, lo: Bound, hi: Bound, m: Mode)
    decreases kids, 0
  {
    && |kids| == |ks| + 1
    && Sorted(ks)
    && Within(ks, lo, hi, true)
    && forall i :: 0 <= i < |kids| ==> Ok(kids[i], h, LoOf(ks, lo, i), HiOf(ks, hi, i), m, false)
  }

  /** The whole-tree invariant at a subtree of height h whose keys lie in (lo, hi]. */
  predicate Ok(t: Tree, h: nat, lo: Bound, hi: Bound, m: Mode, root: bool)
    decreases t, 1
  {
    match t
    case Leaf(_, ks, rs) =>
      && h == 1
      && |ks| == |rs|
      && SizeOk(|ks|, m.caps.leaf, m.fill && !root)
      && Sorted(ks)
      && Within(ks, lo, hi, m.strict)
    case Node(_, ks, kids) =>
      && h > 1
      && SizeOk(|ks|, m.caps.inner, m.fill && !root)
      && (m.fill ==> 1 <= |ks|)
      && KidsOk(ks, kids, h - 1, lo, hi, m)
  }

  // ---------------------------------------------------------------- meaning

  /** What descending by LowerBound finds for k. */
  function Lookup(t: Tree, k: Key): Option<PageReference> {
    match t
    case Leaf(_, ks, rs) =>
      var i := LowerBound(ks, k);
      if i < |ks| && i < |rs| && ks[i] == k then Some(rs[i]) else None
    case Node(_, ks, kids) =>
      var i := LowerBound(ks, k);
      if i < |kids| then Lookup(kids[i], k) else None
  }

  /** Some leaf of t pairs k with r. */
  predicate Holds(t: Tree, k: Key, r: PageReference) {
    match t
    case Leaf(_, ks, rs) => exists i :: 0 <= i < |ks| && i < |rs| && ks[i] == k && rs[i] == r
    case Node(_, _, kids) => exists i :: 0 <= i < |kids| && Holds(kids[i], k, r)
  }

  /** Everything the nodes of t own, as a multiset. */
  function Bag<A>(t: Tree, own: (PageId, seq<Key>) -> multiset<A>): multiset<A>
    decreases t, 1
  {
    match t
    case Leaf(id, ks, _) => own(id, ks)
    case Node(id, ks, kids) => own(id, ks) + Bags(kids, own)
  }

  function Bags<A>(ts: seq<Tree>, own: (PageId, seq<Key>) -> multiset<A>): multiset<A>
    decreases ts, 0
  {
    if ts == [] then multiset{} else Bag(ts[0], own) + Bags(ts[1..], own)
  }

  function OwnKeys(id: PageId, ks: seq<Key>): multiset<Key> { multiset(ks) }

  function OwnPage(id: PageId, ks: seq<Key>): multiset<PageId> { multiset{id} }

  /** All keys of t: leaf keys and separators. */
  function Keys(t: Tree): multiset<Key> { Bag(t, OwnKeys) }

  /** All pages of t. */
  function Pages(t: Tree): (ps: multiset<PageId>)
    ensures t.id in ps
  {
    Bag(t, OwnPage)
  }

  ghost predicate Distinct(t: Tree) {
    forall p :: Pages(t)[p] <= 1
  }

  // ---------------------------------------------------------------- paths

  predicate ValidPath(t: Tree, path: Path)
    decreases |path|, 0
  {
    path == [] ||
    (var n := |path| - 1;
     && ValidPath(t, path[..n])
     && var p := Sub(t, path[..n]);
     && p.Node?
     && path[n].page == p.id
     && path[n].idx < |p.kids|)
  }

  /** The subtree a path leads to. */
  function Sub(t: Tree, path: Path): Tree
    requires ValidPath(t, path)
    decreases |path|, 1
  {
    if path == [] then t else
    var n := |path| - 1;
    Sub(t, path[..n]).kids[path[n].idx]
  }

  /** t with the subtree at path replaced by s. */
  function Replace(t: Tree, path: Path, s: Tree): Tree
    requires ValidPath(t, path)
    decreases |path|
  {
    if path == [] then s else
    var n := |path| - 1;
    Replace(t, path[..n], WithKid(Sub(t, path[..n]), path[n].idx, s))
  }

  function WithKid(p: Tree, i: nat, s: Tree): Tree
    requires p.Node? && i < |p.kids|
  {
    Node(p.id, p.keys, p.kids[i := s])
  }

  function LoAt(t: Tree, path: Path): Bound
    requires ValidPath(t, path)
    decreases |path|
  {
    if path == [] then Inf else
    var n := |path| - 1;
    var p := Sub(t, path[..n]);
    if path[n].idx <= |p.keys| then LoOf(p.keys, LoAt(t, path[..n]), path[n].idx) else Inf
  }

  function HiAt(t: Tree, path: Path): Bound
    requires ValidPath(t, path)
    decreases |path|
  {
    if path == [] then Inf else
    var n := |path| - 1;
    var p := Sub(t, path[..n]);
    if path[n].idx <= |p.keys| then HiOf(p.keys, HiAt(t, path[..n]), path[n].idx) else Inf
  }

  /** The descent for k starts with path. */
  predicate Routes(t: Tree, path: Path, k: Key)
    requires ValidPath(t, path)
    decreases |path|
  {
    path == [] ||
    (var n := |path| - 1;
     && Routes(t, path[..n], k)
     && LowerBound(Sub(t, path[..n]).keys, k) == path[n].idx)
  }

  // ---------------------------------------------------------------- path lemmas

  lemma {:induction false} SubOk(t: Tree, h: nat, m: Mode, path: Path)
    requires Ok(t, h, Inf, Inf, m, true) && ValidPath(t, path)
    ensures |path| < h
    ensures Ok(Sub(t, path), h - |path|, LoAt(t, path), HiAt(t, path), m, path == [])
    decreases |path|
  {
    if path != [] {
      SubOk(t, h, m, path[..|path| - 1]);
    }
  }

  /** Replacing a subtree by one that is good in the same place keeps the tree good. */
  lemma {:induction false} ReplaceOk(t: Tree, h: nat, m: Mode, path: Path, s: Tree)
    requires Ok(t, h, Inf, Inf, m, true) && ValidPath(t, path)
    requires |path| < h
    requires Ok(s, h - |path|, LoAt(t, path), HiAt(t, path), m, path == [])
    ensures Ok(Replace(t, path, s), h, Inf, Inf, m, true)
    decreases |path|
  {
    if path != [] {
      var n := |path| - 1;
      SubOk(t, h, m, path[..n]);
      ReplaceOk(t, h, m, path[..n], WithKid(Sub(t, path[..n]), path[n].idx, s));
    }
  }

  lemma {:induction false} SubReplace(t: Tree, path: Path, s: Tree)
    requires ValidPath(t, path)
    requires s.id == Sub(t, path).id
    ensures Replace(t, path, s).id == t.id
    ensures ValidPath(Replace(t, path, s), path)
    ensures Sub(Replace(t, path, s), path) == s
    ensures LoAt(Replace(t, path, s), path) == LoAt(t, path)
    ensures HiAt(Replace(t, path, s), path) == HiAt(t, path)
    ensures forall k :: Routes(Replace(t, path, s), path, k) <==> Routes(t, path, k)
    decreases |path|
  {
    if path != [] {
      var n := |path| - 1;
      SubReplace(t, path[..n], WithKid(Sub(t, path[..n]), path[n].idx, s));
    }
  }

  lemma {:induction false} RouteLookup(t: Tree, path: Path, k: Key)
    requires ValidPath(t, path) && Routes(t, path, k)
    ensures Lookup(t, k) == Lookup(Sub(t, path), k)
    decreases |path|
  {
    if path != [] {
      RouteLookup(t, path[..|path| - 1], k);
    }
  }

  lemma {:induction false} LookupReplace(t: Tree, path: Path, s: Tree, k: Key)
    requires ValidPath(t, path)
    ensures Lookup(Replace(t, path, s), k) == if Routes(t, path, k) then Lookup(s, k) else Lookup(t, k)
    decreases |path|
  {
    if path != [] {
      var n := |path| - 1;
      LookupReplace(t, path[..n], WithKid(Sub(t, path[..n]), path[n].idx, s), k);
      if Routes(t, path[..n], k) { RouteLookup(t, path[..n], k); }
    }
  }

  lemma {:induction false} InBoundsRoutes(t: Tree, h: nat, m: Mode, path: Path, k: Key)
    requires Ok(t, h, Inf, Inf, m, true) && ValidPath(t, path)
    requires Above(LoAt(t, path), k) && Below(k, HiAt(t, path), false)
    ensures Routes(t, path, k)
    decreases |path|
  {
    if path != [] {
      var up := path[..|path| - 1];
      SubOk(t, h, m, up);
      InBoundsRoutes(t, h, m, up, k);
      LowerBoundIs(Sub(t, up).keys, k, path[|path| - 1].idx);
    }
  }

  // ---------------------------------------------------------------- meaning of a good tree

  lemma {:induction false} HoldsWithin(t: Tree, h: nat, lo: Bound, hi: Bound, m: Mode, root: bool, k: Key,
                                       r: PageReference)
    requires Ok(t, h, lo, hi, m, root) && Holds(t, k, r)
    ensures Above(lo, k) && Below(k, hi, false)
  {
    if t.Node? {
      var i :| 0 <= i < |t.kids| && Holds(t.kids[i], k, r);
      HoldsWithin(t.kids[i], h - 1, LoOf(t.keys, lo, i), HiOf(t.keys, hi, i), m, false, k, r);
    }
  }

  /** In a good tree the descent finds exactly what some leaf holds. */
  lemma {:induction false} LookupIffHolds(t: Tree, h: nat, lo: Bound, hi: Bound, m: Mode, root: bool, k: Key,
                                          r: PageReference)
    requires Ok(t, h, lo, hi, m, root)
    ensures Lookup(t, k) == Some(r) <==> Holds(t, k, r)
  {
    match t
    case Leaf(_, ks, rs) =>
      if Holds(t, k, r) {
        var i :| 0 <= i < |ks| && ks[i] == k && rs[i] == r;
        LowerBoundIs(ks, k, i);
      }
    case Node(_, ks, kids) =>
      var j := LowerBound(ks, k);
      LookupIffHolds(kids[j], h - 1, LoOf(ks, lo, j), HiOf(ks, hi, j), m, false, k, r);
      if Holds(t, k, r) {
        var i :| 0 <= i < |kids| && Holds(kids[i], k, r);
        HoldsWithin(kids[i], h - 1, LoOf(ks, lo, i), HiOf(ks, hi, i), m, false, k, r);
        LowerBoundIs(ks, k, i);
      }
  }

  predicate WiderHi(hi: Bound, hi': Bound) { hi'.Inf? || (hi.At? && hi.key <= hi'.key) }

  lemma {:induction false} Widen(t: Tree, h: nat, lo: Bound, hi: Bound, hi': Bound, m: Mode, root: bool)
    requires Ok(t, h, lo, hi, m, root) && WiderHi(hi, hi')
    ensures Ok(t, h, lo, hi', m, root)
  {
    if t.Node? {
      var n := |t.keys|;
      Widen(t.kids[n], h - 1, LoOf(t.keys, lo, n), hi, hi', m, false);
      forall i | 0 <= i < |t.kids|
        ensures Ok(t.kids[i], h - 1, LoOf(t.keys, lo, i), HiOf(t.keys, hi', i), m, false)
      {
        assert Ok(t.kids[i], h - 1, LoOf(t.keys, lo, i), HiOf(t.keys, hi, i), m, false);
      }
    }
  }

  // ---------------------------------------------------------------- splitting and growing a node

  lemma WithinInsert(ks: seq<Key>, i: nat, sep: Key, lo: Bound, hi: Bound)
    requires Sorted(ks) && Within(ks, lo, hi, true) && i <= |ks|
    requires Above(LoOf(ks, lo, i), sep) && Below(sep, HiOf(ks, hi, i), true)
    ensures Within(InsertAt(ks, i, sep), lo, hi, true)
  {
  }

  lemma InsertedKid(ks: seq<Key>, kids: seq<Tree>, h: nat, lo: Bound, hi: Bound, m: Mode, i: nat, sep: Key, right: Tree,
                    j: nat)
    requires |kids| == |ks| + 1 && i <= |ks| && j <= |kids|
    requires forall k :: 0 <= k < |kids| ==> Ok(kids[k], h, LoOf(ks, lo, k), HiOf(ks, hi, k), m, false)
    requires Ok(kids[i], h, LoOf(ks, lo, i), At(sep), m, false)
    requires Ok(right, h, At(sep), HiOf(ks, hi, i), m, false)
    ensures var ks', kids' := InsertAt(ks, i, sep), InsertAt(kids, i + 1, right);
            Ok(kids'[j], h, LoOf(ks', lo, j), HiOf(ks', hi, j), m, false)
  {
    if j < i {
      assert Ok(kids[j], h, LoOf(ks, lo, j), HiOf(ks, hi, j), m, false);
    } else if j > i + 1 {
      assert Ok(kids[j - 1], h, LoOf(ks, lo, j - 1), HiOf(ks, hi, j - 1), m, false);
    }
  }

  lemma InsertChildOk(ks: seq<Key>, kids: seq<Tree>, h: nat, lo: Bound, hi: Bound, m: Mode, i: nat, sep: Key,
                      right: Tree)
    requires KidsOk(ks, kids, h, lo, hi, m) && i <= |ks|
    requires Above(LoOf(ks, lo, i), sep) && Below(sep, HiOf(ks, hi, i), true)
    requires Ok(kids[i], h, LoOf(ks, lo, i), At(sep), m, false)
    requires Ok(right, h, At(sep), HiOf(ks, hi, i), m, false)
    ensures KidsOk(InsertAt(ks, i, sep), InsertAt(kids, i + 1, right), h, lo, hi, m)
  {
    SortedInsert(ks, i, sep);
    WithinInsert(ks, i, sep, lo, hi);
    forall j | 0 <= j <= |kids|
      ensures var ks', kids' := InsertAt(ks, i, sep), InsertAt(kids, i + 1, right);
              Ok(kids'[j], h, LoOf(ks', lo, j), HiOf(ks', hi, j), m, false)
    {
      InsertedKid(ks, kids, h, lo, hi, m, i, sep, right, j);
    }
  }

  lemma SplitKids(ks: seq<Key>, kids: seq<Tree>, h: nat, lo: Bound, hi: Bound, m: Mode, i: nat)
    requires KidsOk(ks, kids, h, lo, hi, m) && i < |ks|
    ensures KidsOk(ks[..i], kids[..i + 1], h, lo, At(ks[i]), m)
    ensures KidsOk(ks[i + 1..], kids[i + 1..], h, At(ks[i]), hi, m)
  {
    var ks', kids' := ks[i + 1..], kids[i + 1..];
    forall j | 0 <= j < |kids'|
      ensures Ok(kids'[j], h, LoOf(ks', At(ks[i]), j), HiOf(ks', hi, j), m, false)
    {
      assert Ok(kids[i + 1 + j], h, LoOf(ks, lo, i + 1 + j), HiOf(ks, hi, i + 1 + j), m, false);
    }
  }

  lemma LowerBoundInsert(ks: seq<Key>, i: nat, sep: Key, k: Key)
    requires i <= |ks| && Sorted(InsertAt(ks, i, sep))
    ensures var j := LowerBound(ks, k);
            LowerBound(InsertAt(ks, i, sep), k) == if j < i || (j == i && k <= sep) then j else j + 1
  {
    var j := LowerBound(ks, k);
    LowerBoundIs(InsertAt(ks, i, sep), k, if j < i || (j == i && k <= sep) then j else j + 1);
  }

  lemma InsertChildLookup(id: PageId, ks: seq<Key>, kids: seq<Tree>, i: nat, sep: Key, right: Tree, k: Key)
    requires |kids| == |ks| + 1 && i <= |ks| && Sorted(InsertAt(ks, i, sep))
    ensures Lookup(Node(id, InsertAt(ks, i, sep), InsertAt(kids, i + 1, right)), k) ==
            if LowerBound(ks, k) == i && sep < k then Lookup(right, k) else Lookup(Node(id, ks, kids), k)
  {
    var j := LowerBound(ks, k);
    LowerBoundInsert(ks, i, sep, k);
  }

  lemma SplitLookup(id: PageId, id': PageId, id'': PageId, ks: seq<Key>, kids: seq<Tree>, i: nat, k: Key)
    requires |kids| == |ks| + 1 && i < |ks| && Sorted(ks)
    ensures Lookup(Node(id, ks, kids), k) ==
            if k <= ks[i] then Lookup(Node(id', ks[..i], kids[..i + 1]), k)
            else Lookup(Node(id'', ks[i + 1..], kids[i + 1..]), k)
  {
    var j := LowerBound(ks, k);
    if k <= ks[i] {
      LowerBoundIs(ks[..i], k, j);
    } else {
      LowerBoundIs(ks[i + 1..], k, j - (i + 1));
    }
  }

  // ---------------------------------------------------------------- bags

  lemma {:induction false} BagsConcat<A>(a: seq<Tree>, b: seq<Tree>, own: (PageId, seq<Key>) -> multiset<A>)
    ensures Bags(a + b, own) == Bags(a, own) + Bags(b, own)
  {
    if a == [] {
      assert a + b == b;
    } else {
      BagsConcat(a[1..], b, own);
      assert (a + b)[1..] == a[1..] + b;
    }
  }

  lemma BagsAt<A>(ts: seq<Tree>, i: nat, own: (PageId, seq<Key>) -> multiset<A>)
    requires i < |ts|
    ensures Bags(ts, own) == Bags(ts[..i], own) + Bag(ts[i], own) + Bags(ts[i + 1..], own)
  {
    assert ts == ts[..i] + ts[i..];
    BagsConcat(ts[..i], ts[i..], own);
  }

  lemma Cancel<A>(t': multiset<A>, p: multiset<A>, t: multiset<A>, p': multiset<A>, x: multiset<A>, y: multiset<A>)
    requires t' + p == t + p' && p' + x == p + y
    ensures t' + x == t + y
  {
    forall a ensures (t' + x)[a] == (t + y)[a] {
      assert (t' + p)[a] == (t + p')[a] && (p' + x)[a] == (p + y)[a];
    }
  }

  lemma Swap<A>(t': multiset<A>, p: multiset<A>, t: multiset<A>, p': multiset<A>, y: multiset<A>)
    requires t' + p == t + p' && p' == p + y
    ensures t' == t + y
  {
    forall a ensures t'[a] == (t + y)[a] {
      assert (t' + p)[a] == (t + p')[a] && p'[a] == (p + y)[a];
    }
  }

  lemma {:induction false} BagReplace<A>(t: Tree, path: Path, s: Tree, own: (PageId, seq<Key>) -> multiset<A>)
    requires ValidPath(t, path)
    ensures Bag(Replace(t, path, s), own) + Bag(Sub(t, path), own) == Bag(t, own) + Bag(s, own)
    ensures Bag(Sub(t, path), own) <= Bag(t, own)
    decreases |path|
  {
    if path != [] {
      var n := |path| - 1;
      var p, i := Sub(t, path[..n]), path[n].idx;
      var p' := WithKid(p, i, s);
      BagReplace(t, path[..n], p', own);
      BagsAt(p.kids, i, own);
      BagsAt(p'.kids, i, own);
      assert p'.kids[..i] == p.kids[..i] && p'.kids[i + 1..] == p.kids[i + 1..];
      Cancel(Bag(Replace(t, path, s), own), Bag(p, own), Bag(t, own), Bag(p', own), Bag(p.kids[i], own), Bag(s, own));
    }
  }

  lemma KidBags<A>(ts: seq<Tree>, i: nat, j: nat, own: (PageId, seq<Key>) -> multiset<A>)
    requires i < j < |ts|
    ensures Bag(ts[i], own) + Bag(ts[j], own) <= Bags(ts, own)
  {
    BagsAt(ts, j, own);
    BagsAt(ts[..j], i, own);
  }
}
