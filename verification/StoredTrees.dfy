/**
  Page maps for a given tree: any tree whose pages are distinct can be stored.
 */
module StoredTrees {
  import opened PageReferences
  import opened Trees
  import opened Stores
  import opened Inserting

  function RootIds(ts: seq<Tree>): (ids: seq<PageId>)
    ensures |ids| == |ts| && forall i :: 0 <= i < |ts| ==> ids[i] == ts[i].id
  {
    if ts == [] then [] else [ts[0].id] + RootIds(ts[1..])
  }

  function Both(a: Store, b: Store): Store { Store(a.leaves + b.leaves, a.inners + b.inners) }

  /** The pages that spell out t. */
  function StoreOf(t: Tree): Store
    decreases t, 1
  {
    match t
    case Leaf(id, ks, rs) => Store(map[id := LeafNode(ks, rs)], map[])
    case Node(id, ks, kids) => Both(StoresOf(kids), Store(map[], map[id := InnerNode(ks, RootIds(kids))]))
  }

  function StoresOf(ts: seq<Tree>): Store
    decreases ts, 0
  {
    if ts == [] then Store(map[], map[]) else Both(StoreOf(ts[0]), StoresOf(ts[1..]))
  }

  /** Two stores over different pages. */
  lemma BothOwns(a: Store, b: Store, ps: multiset<PageId>, qs: multiset<PageId>)
    requires Owns(a, ps) && Owns(b, qs) && forall p :: (ps + qs)[p] <= 1
    ensures Owns(Both(a, b), ps + qs)
    ensures forall p :: p in ps ==> SamePage(a, Both(a, b), p)
    ensures forall p :: p in qs ==> SamePage(b, Both(a, b), p)
  {
    forall p ensures !(p in a.Ids() && p in b.Ids()) {
      assert (ps + qs)[p] == ps[p] + qs[p] <= 1;
      assert ps[p] == (if p in a.Ids() then 1 else 0) && qs[p] == if p in b.Ids() then 1 else 0;
    }
    forall p ensures (ps + qs)[p] == if p in Both(a, b).Ids() then 1 else 0 {
      assert ps[p] == (if p in a.Ids() then 1 else 0) && qs[p] == if p in b.Ids() then 1 else 0;
    }
  }

  /** Any tree whose pages are distinct is held by pages of its own. */
  lemma {:induction false} StoredOwn(t: Tree)
    requires Distinct(t)
    ensures Represents(StoreOf(t), t) && Owns(StoreOf(t), Pages(t))
    decreases t, 1
  {
    if t.Node? {
      var s, top := StoresOf(t.kids), Store(map[], map[t.id := InnerNode(t.keys, RootIds(t.kids))]);
      assert Pages(t) == multiset{t.id} + Bags(t.kids, OwnPage);
      forall p ensures Bags(t.kids, OwnPage)[p] <= 1 { assert Pages(t)[p] <= 1; }
      RowOwn(t.kids);
      assert Pages(t) == Bags(t.kids, OwnPage) + multiset{t.id};
      BothOwns(s, top, Bags(t.kids, OwnPage), multiset{t.id});
      RowFrame(s, StoreOf(t), t.kids);
    }
  }

  lemma {:induction false} RowOwn(ts: seq<Tree>)
    requires forall p :: Bags(ts, OwnPage)[p] <= 1
    ensures Owns(StoresOf(ts), Bags(ts, OwnPage))
    ensures forall i :: 0 <= i < |ts| ==> Represents(StoresOf(ts), ts[i])
    decreases ts, 0
  {
    if ts != [] {
      var a, b, ps, qs := StoreOf(ts[0]), StoresOf(ts[1..]), Pages(ts[0]), Bags(ts[1..], OwnPage);
      assert Bags(ts, OwnPage) == ps + qs;
      forall p ensures ps[p] <= 1 && qs[p] <= 1 { assert (ps + qs)[p] <= 1; }
      StoredOwn(ts[0]);
      RowOwn(ts[1..]);
      RowJoin(ts[0], ts[1..], a, b);
      forall i | 1 <= i < |ts| ensures Represents(StoresOf(ts), ts[i]) { assert ts[i] == ts[1..][i - 1]; }
    }
  }

  lemma RowJoin(t: Tree, rest: seq<Tree>, a: Store, b: Store)
    requires Represents(a, t) && Owns(a, Pages(t)) && Owns(b, Bags(rest, OwnPage))
    requires forall i :: 0 <= i < |rest| ==> Represents(b, rest[i])
    requires forall p :: (Pages(t) + Bags(rest, OwnPage))[p] <= 1
    ensures Represents(Both(a, b), t) && Owns(Both(a, b), Pages(t) + Bags(rest, OwnPage))
    ensures forall i :: 0 <= i < |rest| ==> Represents(Both(a, b), rest[i])
  {
    BothOwns(a, b, Pages(t), Bags(rest, OwnPage));
    RepresentsFrame(a, Both(a, b), t);
    RowFrame(b, Both(a, b), rest);
  }

  lemma RowFrame(s: Store, s': Store, ts: seq<Tree>)
    requires forall i :: 0 <= i < |ts| ==> Represents(s, ts[i])
    requires forall p :: p in Bags(ts, OwnPage) ==> SamePage(s, s', p)
    ensures forall i :: 0 <= i < |ts| ==> Represents(s', ts[i])
  {
    forall i | 0 <= i < |ts| ensures Represents(s', ts[i]) {
      BagsAt(ts, i, OwnPage);
      RepresentsFrame(s, s', ts[i]);
    }
  }
}
