/**
  The page maps of a B-tree and the tree they stand for.
 */
module Stores {
  import opened PageReferences
  import opened Trees

  datatype LeafNode = LeafNode(keys: seq<Key>, refs: seq<PageReference>)

  datatype InnerNode = InnerNode(keys: seq<Key>, children: seq<PageId>)

  datatype Store = Store(leaves: map<PageId, LeafNode>, inners: map<PageId, InnerNode>) {
    function Ids(): set<PageId> { leaves.Keys + inners.Keys }
  }

  /** The pages of s reachable from t's root page spell out t. */
  predicate Represents(s: Store, t: Tree) {
    match t
    case Leaf(id, ks, rs) =>
      id in s.leaves && s.leaves[id] == LeafNode(ks, rs)
    case Node(id, ks, kids) =>
      && id !in s.leaves
      && id in s.inners
      && s.inners[id].keys == ks
      && |s.inners[id].children| == |kids|
      && forall i :: 0 <= i < |kids| ==> s.inners[id].children[i] == kids[i].id && Represents(s, kids[i])
  }

  predicate SamePage(s: Store, s': Store, p: PageId) {
    && (p in s.leaves <==> p in s'.leaves)
    && (p in s.leaves ==> s.leaves[p] == s'.leaves[p])
    && (p in s.inners <==> p in s'.inners)
    && (p in s.inners ==> s.inners[p] == s'.inners[p])
  }

  ghost predicate SameBut(s: Store, s': Store, ids: set<PageId>) {
    forall p :: p !in ids ==> SamePage(s, s', p)
  }

  lemma WriteInner(s: Store, id: PageId, n: InnerNode)
    ensures SameBut(s, s.(inners := s.inners[id := n]), {id})
  {
  }

  lemma {:induction false} RepresentsFrame(s: Store, s': Store, t: Tree)
    requires Represents(s, t)
    requires forall p :: p in Pages(t) ==> SamePage(s, s', p)
    ensures Represents(s', t)
  {
    assert t.id in Pages(t);
    if t.Node? {
      forall i | 0 <= i < |t.kids| ensures Represents(s', t.kids[i]) {
        BagsAt(t.kids, i, OwnPage);
        RepresentsFrame(s, s', t.kids[i]);
      }
    }
  }

  lemma {:induction false} PagesStored(s: Store, t: Tree)
    requires Represents(s, t)
    ensures forall p :: p in Pages(t) ==> p in s.Ids()
  {
    if t.Node? {
      forall p | p in Bags(t.kids, OwnPage) ensures p in s.Ids() {
        var i := InSomeKid(t.kids, p);
        PagesStored(s, t.kids[i]);
      }
    }
  }

  lemma {:induction false} InSomeKid(ts: seq<Tree>, p: PageId) returns (i: nat)
    requires p in Bags(ts, OwnPage)
    ensures i < |ts| && p in Pages(ts[i])
  {
    if p in Pages(ts[0]) { i := 0; } else {
      i := InSomeKid(ts[1..], p);
      i := i + 1;
    }
  }

  lemma {:induction false} SubRepresents(s: Store, t: Tree, path: Path)
    requires Represents(s, t) && ValidPath(t, path)
    ensures Represents(s, Sub(t, path))
    decreases |path|
  {
    if path != [] {
      SubRepresents(s, t, path[..|path| - 1]);
    }
  }

  lemma DistinctSub(t: Tree, path: Path)
    requires Distinct(t) && ValidPath(t, path)
    ensures Distinct(Sub(t, path))
  {
    BagReplace(t, path, t, OwnPage);
    forall p ensures Pages(Sub(t, path))[p] <= 1 {
      assert Pages(Sub(t, path))[p] <= Pages(t)[p];
    }
  }

  lemma DistinctKids(t: Tree, i: nat, j: nat)
    requires t.Node? && Distinct(t) && i < |t.kids| && j < |t.kids| && i != j
    ensures t.id !in Pages(t.kids[i])
    ensures forall p :: p in Pages(t.kids[i]) ==> p !in Pages(t.kids[j])
  {
    BagsAt(t.kids, i, OwnPage);
    KidBags(t.kids, if i < j then i else j, if i < j then j else i, OwnPage);
    var both := Pages(t.kids[i]) + Pages(t.kids[j]);
    forall p | p in Pages(t.kids[i]) ensures p !in Pages(t.kids[j]) {
      assert both[p] <= Pages(t)[p] <= 1;
    }
    assert Pages(t)[t.id] <= 1;
  }

  /** Rewriting the pages of one subtree rewrites that subtree and nothing else. */
  lemma {:induction false} RepresentsReplace(s: Store, s': Store, t: Tree, path: Path, x: Tree)
    requires Represents(s, t) && Distinct(t) && ValidPath(t, path)
    requires Represents(s', x) && x.id == Sub(t, path).id
    requires forall p :: p in Pages(t) && p !in Pages(Sub(t, path)) ==> SamePage(s, s', p)
    ensures Represents(s', Replace(t, path, x))
    decreases |path|
  {
    if path != [] {
      var n := |path| - 1;
      var p, i := Sub(t, path[..n]), path[n].idx;
      SubRepresents(s, t, path[..n]);
      DistinctSub(t, path[..n]);
      BagReplace(t, path[..n], p, OwnPage);
      BagsAt(p.kids, i, OwnPage);
      WithKidRepresents(s, s', p, i, x);
      RepresentsReplace(s, s', t, path[..n], WithKid(p, i, x));
    }
  }

  lemma {:induction false} WithKidRepresents(s: Store, s': Store, p: Tree, i: nat, x: Tree)
    requires p.Node? && i < |p.kids| && Represents(s, p) && Distinct(p)
    requires Represents(s', x) && x.id == p.kids[i].id
    requires forall q :: q in Pages(p) && q !in Pages(p.kids[i]) ==> SamePage(s, s', q)
    ensures Represents(s', WithKid(p, i, x))
  {
    BagsAt(p.kids, i, OwnPage);
    assert p.id !in Pages(p.kids[i]) by { assert Pages(p)[p.id] <= 1; }
    assert SamePage(s, s', p.id);
    forall j | 0 <= j < |p.kids| && j != i ensures Represents(s', p.kids[j]) {
      DistinctKids(p, j, i);
      BagsAt(p.kids, j, OwnPage);
      RepresentsFrame(s, s', p.kids[j]);
    }
  }
}
