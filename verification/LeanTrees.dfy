/**
  Trees of three or more levels at minimum occupancy, where every erase is refused.
 */
module LeanTrees {
  import opened Options
  import opened PageReferences
  import opened Trees
  import opened Stores
  import opened Inserting
  import opened Space
  import opened BTrees
  import opened Deleting
  import opened StoredTrees

  // ---------------------------------------------------------------- refused merges

  /** No node below the root has a key to spare. */
  predicate Lean(t: Tree, caps: Caps) {
    t.Node? ==>
      forall i :: 0 <= i < |t.kids| ==>
        && Lean(t.kids[i], caps)
        && |t.kids[i].keys| == if t.kids[i].Leaf? then caps.leaf / 2 else caps.inner / 2
  }

  lemma KidOk(t: Tree, h: nat, lo: Bound, hi: Bound, m: Mode, root: bool, i: nat)
    requires Ok(t, h, lo, hi, m, root) && h >= 2 && i <= |t.keys|
    ensures t.Node? && |t.kids| == |t.keys| + 1
    ensures Ok(t.kids[i], h - 1, LoOf(t.keys, lo, i), HiOf(t.keys, hi, i), m, false)
    ensures t.kids[i].Leaf? <==> h == 2
  {
  }

  lemma NoSpare(t: Tree, h: nat, lo: Bound, hi: Bound, m: Mode, root: bool, i: nat)
    requires Ok(t, h, lo, hi, m, root) && h >= 2 && Lean(t, m.caps) && i <= |t.keys|
    ensures !HasSpare(t.kids, i, if h == 2 then m.caps.leaf / 2 else m.caps.inner / 2)
  {
    if i > 0 { KidOk(t, h, lo, hi, m, root, i - 1); }
    if i < |t.keys| { KidOk(t, h, lo, hi, m, root, i + 1); }
  }

  /** In a tree of three or more levels at minimum occupancy, erasing is refused for every
      key. */
  lemma {:induction false} LeanRefuses(t: Tree, h: nat, lo: Bound, hi: Bound, m: Mode, root: bool, key: Key)
    requires Ok(t, h, lo, hi, m, root) && h >= 3 && Lean(t, m.caps)
    ensures Refused(t, key, m.caps)
  {
    var i := LowerBound(t.keys, key);
    KidOk(t, h, lo, hi, m, root, i);
    NoSpare(t, h, lo, hi, m, root, i);
    var p, lo', hi' := t.kids[i], LoOf(t.keys, lo, i), HiOf(t.keys, hi, i);
    var j := LowerBound(p.keys, key);
    KidOk(p, h - 1, lo', hi', m, false, j);
    NoSpare(p, h - 1, lo', hi', m, false, j);
    if h > 3 { LeanRefuses(p, h - 1, lo', hi', m, false, key); }
  }

  /** Where child i starts when a child and the separator after it take w keys. */
  function Start(lo: nat, i: nat, w: nat): nat {
    if i == 0 then lo else Start(lo, i - 1, w) + w
  }

  lemma {:induction false} StartLess(lo: nat, i: nat, j: nat, w: nat)
    requires i <= j
    ensures lo <= Start(lo, i, w) <= Start(lo, j, w)
    ensures i < j ==> Start(lo, i, w) + w <= Start(lo, j, w)
  {
    if i < j { StartLess(lo, i, j - 1, w); } else if i > 0 { StartLess(lo, i - 1, i - 1, w); }
  }

  lemma {:induction false} StartFrom(lo: nat, i: nat, w: nat)
    ensures Start(lo, i, w) == lo + Start(0, i, w)
  {
    if i > 0 { StartFrom(lo, i - 1, w); }
  }

  /** The number of keys of a subtree of height h at minimum occupancy. */
  function Width(caps: Caps, h: nat): nat {
    if h <= 1 then caps.leaf / 2 else Start(Width(caps, h - 1), caps.inner / 2, Width(caps, h - 1) + 1)
  }

  function Separators(lo: nat, n: nat, w: nat): (ks: seq<Key>)
    ensures |ks| == n && forall i :: 0 <= i < n ==> ks[i] == Start(lo, i + 1, w) - 1
  {
    seq(n, i requires 0 <= i => Start(lo, i + 1, w) - 1)
  }

  lemma SeparatorsOk(lo: nat, n: nat, w: nat)
    requires w > 0
    ensures var ks := Separators(lo, n, w);
            && Sorted(ks) && Within(ks, At(lo - 1), At(Start(lo, n + 1, w) - 1), true)
            && LowerBound(ks, lo) == 0
  {
    var ks := Separators(lo, n, w);
    forall i, j | 0 <= i < j < n ensures ks[i] < ks[j] { StartLess(lo, i + 1, j + 1, w); }
    forall i | 0 <= i < n ensures lo <= ks[i] < Start(lo, n + 1, w) - 1 {
      StartLess(lo, i, i + 1, w);
      StartLess(lo, i + 1, n + 1, w);
    }
    LowerBoundIs(ks, lo, 0);
  }

  /** The number of pages of a subtree of height h at minimum occupancy. */
  function PageCount(caps: Caps, h: nat): nat {
    if h <= 1 then 1 else Start(1, caps.inner / 2 + 1, PageCount(caps, h - 1))
  }

  /** A subtree of height h at minimum occupancy with the keys from lo on, each leaf key with
      the reference r, on the pages from id on. */
  function LeanTree(caps: Caps, h: nat, lo: nat, id: PageId, r: PageReference): Tree
    decreases h, 0
  {
    if h <= 1 then Leaf(id, seq(caps.leaf / 2, i => lo + i), seq(caps.leaf / 2, i => r)) else
    Node(id, Separators(lo, caps.inner / 2, Width(caps, h - 1) + 1),
         LeanKids(caps, h - 1, lo, id + 1, caps.inner / 2 + 1, r))
  }

  function LeanKids(caps: Caps, h: nat, lo: nat, id: PageId, n: nat, r: PageReference): (kids: seq<Tree>)
    ensures |kids| == n
    ensures forall i :: 0 <= i < n ==>
              kids[i] == LeanTree(caps, h, Start(lo, i, Width(caps, h) + 1), Start(id, i, PageCount(caps, h)), r)
    decreases h, n + 1
  {
    if n == 0 then []
    else LeanKids(caps, h, lo, id, n - 1, r) +
         [LeanTree(caps, h, Start(lo, n - 1, Width(caps, h) + 1), Start(id, n - 1, PageCount(caps, h)), r)]
  }

  /** Its pages are distinct and within those from id on. */
  lemma {:induction false} LeanPages(caps: Caps, h: nat, lo: nat, id: PageId, r: PageReference, p: PageId)
    ensures Pages(LeanTree(caps, h, lo, id, r))[p] <= if id <= p < id + PageCount(caps, h) then 1 else 0
    decreases h, 0
  {
    if h >= 2 {
      var n, w := caps.inner / 2 + 1, PageCount(caps, h - 1);
      LeanKidPages(caps, h - 1, lo, id + 1, n, r, p);
      StartFrom(id + 1, n, w);
      StartFrom(1, n, w);
    }
  }

  lemma {:induction false} LeanKidPages(caps: Caps, h: nat, lo: nat, id: PageId, n: nat, r: PageReference, p: PageId)
    ensures Bags(LeanKids(caps, h, lo, id, n, r), OwnPage)[p] <=
            if id <= p < Start(id, n, PageCount(caps, h)) then 1 else 0
    decreases h, n + 1
  {
    if n > 0 {
      var w, at := PageCount(caps, h), Start(id, n - 1, PageCount(caps, h));
      var kids := LeanKids(caps, h, lo, id, n - 1, r);
      var last := LeanTree(caps, h, Start(lo, n - 1, Width(caps, h) + 1), at, r);
      LeanKidPages(caps, h, lo, id, n - 1, r, p);
      LeanPages(caps, h, Start(lo, n - 1, Width(caps, h) + 1), at, r, p);
      OneMorePage(kids, last, p);
      assert Start(id, n, w) == at + w && LeanKids(caps, h, lo, id, n, r) == kids + [last];
      StartLess(id, 0, n - 1, w);
    }
  }

  lemma OneMorePage(kids: seq<Tree>, last: Tree, p: PageId)
    ensures Bags(kids + [last], OwnPage)[p] == Bags(kids, OwnPage)[p] + Pages(last)[p]
  {
    BagsConcat(kids, [last], OwnPage);
    assert Bags([last], OwnPage) == Pages(last) + Bags([last][1..], OwnPage);
  }

  lemma LeanWidth(caps: Caps, h: nat, lo: nat)
    requires h >= 2
    ensures Start(lo, caps.inner / 2 + 1, Width(caps, h - 1) + 1) - 1 == lo + Width(caps, h)
  {
    var n, w := caps.inner / 2, Width(caps, h - 1) + 1;
    StartFrom(lo, n + 1, w);
    StartFrom(w - 1, n, w);
  }

  /** The bounds of child i are just outside its keys. */
  lemma LeanBounds(lo: nat, n: nat, w: nat, i: nat)
    requires w > 0 && i <= n
    ensures LoOf(Separators(lo, n, w), At(lo - 1), i) == At(Start(lo, i, w) - 1)
    ensures HiOf(Separators(lo, n, w), At(Start(lo, n + 1, w) - 1), i) == At(Start(lo, i, w) + w - 1)
  {
  }

  predicate RowOk(kids: seq<Tree>, h: nat, lo: nat, w: nat, m: Mode) {
    forall i :: 0 <= i < |kids| ==> Ok(kids[i], h, At(Start(lo, i, w) - 1), At(Start(lo, i, w) + w - 1), m, false)
  }

  lemma {:induction false} LeanTreeOk(caps: Caps, h: nat, lo: nat, id: PageId, r: PageReference)
    requires caps.leaf >= 2 && caps.inner >= 2 && h >= 1
    ensures Ok(LeanTree(caps, h, lo, id, r), h, At(lo - 1), At(lo + Width(caps, h)), Mode(caps, true, true), false)
    decreases h, 0
  {
    if h >= 2 {
      var n, w := caps.inner / 2, Width(caps, h - 1) + 1;
      LeanRowOk(caps, h - 1, lo, id + 1, n + 1, r);
      LeanWidth(caps, h, lo);
      LeanNodeOk(id, h - 1, lo, n, w, LeanKids(caps, h - 1, lo, id + 1, n + 1, r), lo + Width(caps, h),
                 Mode(caps, true, true));
    }
  }

  lemma {:induction false} LeanRowOk(caps: Caps, h: nat, lo: nat, id: PageId, n: nat, r: PageReference)
    requires caps.leaf >= 2 && caps.inner >= 2 && h >= 1
    ensures RowOk(LeanKids(caps, h, lo, id, n, r), h, lo, Width(caps, h) + 1, Mode(caps, true, true))
    decreases h, 1
  {
    var kids, w, m := LeanKids(caps, h, lo, id, n, r), Width(caps, h) + 1, Mode(caps, true, true);
    forall i | 0 <= i < n
      ensures Ok(kids[i], h, At(Start(lo, i, w) - 1), At(Start(lo, i, w) + w - 1), m, false)
    {
      LeanTreeOk(caps, h, Start(lo, i, w), Start(id, i, PageCount(caps, h)), r);
    }
  }

  lemma LeanNodeOk(id: PageId, h: nat, lo: nat, n: nat, w: nat, kids: seq<Tree>, hi: Key, m: Mode)
    requires w > 0 && |kids| == n + 1 && 1 <= n && SizeOk(n, m.caps.inner, true)
    requires RowOk(kids, h, lo, w, m)
    requires h > 0 && hi == Start(lo, n + 1, w) - 1
    ensures Ok(Node(id, Separators(lo, n, w), kids), h + 1, At(lo - 1), At(hi), m, false)
  {
    LeanKidsOk(h, lo, n, w, kids, m);
  }

  lemma LeanKidsOk(h: nat, lo: nat, n: nat, w: nat, kids: seq<Tree>, m: Mode)
    requires w > 0 && |kids| == n + 1
    requires RowOk(kids, h, lo, w, m)
    ensures KidsOk(Separators(lo, n, w), kids, h, At(lo - 1), At(Start(lo, n + 1, w) - 1), m)
  {
    var ks, hi := Separators(lo, n, w), At(Start(lo, n + 1, w) - 1);
    SeparatorsOk(lo, n, w);
    forall i | 0 <= i <= n ensures Ok(kids[i], h, LoOf(ks, At(lo - 1), i), HiOf(ks, hi, i), m, false) {
      LeanBounds(lo, n, w, i);
    }
  }

  lemma {:induction false} LeanTreeLean(caps: Caps, h: nat, lo: nat, id: PageId, r: PageReference)
    requires h >= 1
    ensures var t := LeanTree(caps, h, lo, id, r);
            Lean(t, caps) && |t.keys| == if t.Leaf? then caps.leaf / 2 else caps.inner / 2
    decreases h
  {
    if h >= 2 {
      var n, w := caps.inner / 2, Width(caps, h - 1) + 1;
      var kids := LeanKids(caps, h - 1, lo, id + 1, n + 1, r);
      forall i | 0 <= i <= n
        ensures Lean(kids[i], caps) && |kids[i].keys| == if kids[i].Leaf? then caps.leaf / 2 else caps.inner / 2
      {
        LeanTreeLean(caps, h - 1, Start(lo, i, w), Start(id + 1, i, PageCount(caps, h - 1)), r);
      }
    }
  }

  lemma {:induction false} LeanTreeFinds(caps: Caps, h: nat, lo: nat, id: PageId, r: PageReference)
    requires caps.leaf >= 2 && h >= 1
    ensures Lookup(LeanTree(caps, h, lo, id, r), lo) == Some(r)
    decreases h
  {
    var t := LeanTree(caps, h, lo, id, r);
    if h == 1 {
      LowerBoundIs(t.keys, lo, 0);
    } else {
      SeparatorsOk(lo, caps.inner / 2, Width(caps, h - 1) + 1);
      LeanTreeFinds(caps, h - 1, lo, id + 1, r);
    }
  }

  lemma {:induction false} WidenLo(t: Tree, h: nat, lo: Bound, hi: Bound, m: Mode, root: bool)
    requires Ok(t, h, lo, hi, m, root)
    ensures Ok(t, h, Inf, hi, m, root)
  {
    if t.Node? {
      WidenLo(t.kids[0], h - 1, lo, HiOf(t.keys, hi, 0), m, false);
      forall i | 0 <= i < |t.kids|
        ensures Ok(t.kids[i], h - 1, LoOf(t.keys, Inf, i), HiOf(t.keys, hi, i), m, false)
      {
        assert Ok(t.kids[i], h - 1, LoOf(t.keys, lo, i), HiOf(t.keys, hi, i), m, false);
      }
    }
  }

  /** For all capacities and every height from three on whose pages there are enough of, there
      is a strict tree in order and filled, held by managed pages, which finds its first key and
      on which erasing that key is refused. */
  lemma RefusedTree(caps: Caps, h: nat, r: PageReference)
    requires caps.leaf >= 2 && caps.inner >= 2 && h >= 3 && RESERVED + PageCount(caps, h) <= MAX_PAGE + 1
    ensures var t := LeanTree(caps, h, 0, RESERVED, r);
            && Good(StoreOf(t), t, h, Mode(caps, true, true)) && (forall p :: p in StoreOf(t).Ids() ==> Managed(p))
            && Lookup(t, 0) == Some(r) && Refused(t, 0, caps)
  {
    var t, m := LeanTree(caps, h, 0, RESERVED, r), Mode(caps, true, true);
    LeanTreeOk(caps, h, 0, RESERVED, r);
    Widen(t, h, At(-1), At(Width(caps, h)), Inf, m, false);
    WidenLo(t, h, At(-1), Inf, m, false);
    forall p ensures Pages(t)[p] <= if Managed(p) then 1 else 0 { LeanPages(caps, h, 0, RESERVED, r, p); }
    StoredOwn(t);
    LeanTreeLean(caps, h, 0, RESERVED, r);
    LeanTreeFinds(caps, h, 0, RESERVED, r);
    LeanRefuses(t, h, Inf, Inf, m, false, 0);
  }

  // ---------------------------------------------------------------- erasing from it

  /** The object's pages are those that spell out t, and it has them from the space manager. */
  ghost predicate Holding(b: BTree, t: Tree, h: nat)
    reads b, b.space, b.space.pages, b.space.freeMap
  {
    && b.SpaceOk() && b.caps.leaf >= 2 && b.caps.inner >= 2 && !b.Empty()
    && b.Maps() == StoreOf(t) && b.rootId == t.id && b.height == h && b.tree == t
  }

  /** The refused erase: it reports failure, the key is gone, and a node is left short. */
  method EraseLean(b: BTree, h: nat, r: PageReference) returns (st: Status)
    requires h >= 3 && RESERVED + PageCount(b.caps, h) <= MAX_PAGE + 1
    requires Holding(b, LeanTree(b.caps, h, 0, RESERVED, r), h)
    modifies b, b.space.pages, b.space.freeMap
    ensures st == Rejected && b.Value(0) == None
    ensures !b.Valid(Mode(b.caps, true, true)) && b.Valid(Mode(b.caps, true, false))
  {
    RefusedTree(b.caps, h, r);
    st := EraseRefused(b, 0, b.tree, Mode(b.caps, true, true));
  }

  method EraseRefused(b: BTree, key: Key, ghost t: Tree, ghost m: Mode) returns (st: Status)
    requires Holding(b, t, b.height) && m.caps == b.caps && m.fill && Good(StoreOf(t), t, b.height, m)
    requires Lookup(t, key).Some? && Refused(t, key, b.caps)
    modifies b, b.space.pages, b.space.freeMap
    ensures st == Rejected && b.Value(key) == None && !b.Valid(m) && b.Valid(m.(fill := false))
  {
    ghost var e;
    st, e := Erase(b, key, m);
  }
}
