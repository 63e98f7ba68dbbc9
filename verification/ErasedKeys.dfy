/**
  The bag of leaf keys and separators through the repairs after an erase: only a merge of
  leaves takes one away, the separator between them.
 */
module ErasedKeys {
  import opened Trees
  import opened Rebalancing
  import opened Inserting
  import opened Erasing
  import opened Repairs

  /** The keys of a pair of neighbours and the separator between them. */
  function PairBag(u: Tree, sep: Key, w: Tree): multiset<Key> { Keys(u) + multiset{sep} + Keys(w) }

  lemma TwoKids(ts: seq<Tree>, j: nat, a: Tree, b: Tree)
    requires j + 1 < |ts|
    ensures Bags(ts[j := a][j + 1 := b], OwnKeys) + (Keys(ts[j]) + Keys(ts[j + 1])) ==
            Bags(ts, OwnKeys) + (Keys(a) + Keys(b))
  {
    BagsUpdate(ts, j, a, OwnKeys);
    BagsUpdate(ts[j := a], j + 1, b, OwnKeys);
    var x, y, z := Bags(ts, OwnKeys), Bags(ts[j := a], OwnKeys), Bags(ts[j := a][j + 1 := b], OwnKeys);
    forall k ensures (z + (Keys(ts[j]) + Keys(ts[j + 1])))[k] == (x + (Keys(a) + Keys(b)))[k] {
      assert (y + Keys(ts[j]))[k] == (x + Keys(a))[k] && (z + Keys(ts[j + 1]))[k] == (y + Keys(b))[k];
    }
  }

  lemma KeyUpdate(ks: seq<Key>, j: nat, k: Key)
    requires j < |ks|
    ensures multiset(ks[j := k]) + multiset{ks[j]} == multiset(ks) + multiset{k}
  {
  }

  lemma KeyRemove(ks: seq<Key>, j: nat)
    requires j < |ks|
    ensures multiset(RemoveAt(ks, j)) + multiset{ks[j]} == multiset(ks)
  {
    assert ks == ks[..j] + [ks[j]] + ks[j + 1..];
  }

  lemma RotatedKeys(q: Tree, j: nat, a: Tree, sep: Key, b: Tree)
    requires q.Node? && j < |q.keys| && j + 1 < |q.kids|
    requires PairBag(a, sep, b) == PairBag(q.kids[j], q.keys[j], q.kids[j + 1])
    ensures Keys(Rotated(q, j, a, sep, b)) == Keys(q)
  {
    var u, w, q' := q.kids[j], q.kids[j + 1], Rotated(q, j, a, sep, b);
    TwoKids(q.kids, j, a, b);
    KeyUpdate(q.keys, j, sep);
    forall k ensures Keys(q')[k] == Keys(q)[k] {
      assert PairBag(a, sep, b)[k] == PairBag(u, q.keys[j], w)[k];
      assert (Bags(q'.kids, OwnKeys) + (Keys(u) + Keys(w)))[k] == (Bags(q.kids, OwnKeys) + (Keys(a) + Keys(b)))[k];
      assert (multiset(q'.keys) + multiset{q.keys[j]})[k] == (multiset(q.keys) + multiset{sep})[k];
    }
  }

  lemma FusedKeys(q: Tree, j: nat, a: Tree)
    requires q.Node? && j < |q.keys| && j + 1 < |q.kids| && Keys(a) == Keys(q.kids[j]) + Keys(q.kids[j + 1])
    ensures Keys(Fused(q, j, a)) + multiset{q.keys[j]} == Keys(q)
  {
    var ts, q' := RemoveAt(q.kids, j + 1), Fused(q, j, a);
    BagsRemove(q.kids, j + 1, OwnKeys);
    BagsUpdate(ts, j, a, OwnKeys);
    KeyRemove(q.keys, j);
    forall k ensures (Keys(q') + multiset{q.keys[j]})[k] == Keys(q)[k] {
      assert (Bags(ts, OwnKeys) + Keys(q.kids[j + 1]))[k] == Bags(q.kids, OwnKeys)[k];
      assert (Bags(q'.kids, OwnKeys) + Keys(q.kids[j]))[k] == (Bags(ts, OwnKeys) + Keys(a))[k];
      assert Keys(a)[k] == Keys(q.kids[j])[k] + Keys(q.kids[j + 1])[k];
      assert (multiset(q'.keys) + multiset{q.keys[j]})[k] == multiset(q.keys)[k];
    }
  }

  lemma CutKeys(u: Tree, sep: Key, w: Tree, i: nat)
    requires u.Node? && w.Node? && i < |RunKeys(u, sep, w)| && i < |RunKids(u, w)|
    ensures PairBag(CutLeft(u, sep, w, i), RunKeys(u, sep, w)[i], CutRight(u, sep, w, i)) == PairBag(u, sep, w)
  {
    var ks, kids := RunKeys(u, sep, w), RunKids(u, w);
    var l, r := CutLeft(u, sep, w, i), CutRight(u, sep, w, i);
    KeyCut(ks, i);
    assert multiset(ks) == multiset(u.keys) + multiset{sep} + multiset(w.keys);
    assert kids == kids[..i + 1] + kids[i + 1..];
    BagsConcat(u.kids, w.kids, OwnKeys);
    BagsConcat(l.kids, r.kids, OwnKeys);
    SameSum(multiset(l.keys), multiset{ks[i]}, multiset(r.keys), multiset(u.keys), multiset{sep}, multiset(w.keys),
            Bags(l.kids, OwnKeys), Bags(r.kids, OwnKeys), Bags(u.kids, OwnKeys), Bags(w.kids, OwnKeys));
  }

  lemma KeyCut(ks: seq<Key>, i: nat)
    requires i < |ks|
    ensures multiset(ks) == multiset(ks[..i]) + multiset{ks[i]} + multiset(ks[i + 1..])
  {
    assert ks == ks[..i] + [ks[i]] + ks[i + 1..];
  }

  lemma SameSum<A>(a: multiset<A>, s: multiset<A>, b: multiset<A>, c: multiset<A>, t: multiset<A>, d: multiset<A>,
                   e: multiset<A>, f: multiset<A>, g: multiset<A>, h: multiset<A>)
    requires a + s + b == c + t + d && e + f == g + h
    ensures (a + e) + s + (b + f) == (c + g) + t + (d + h)
  {
    forall x ensures ((a + e) + s + (b + f))[x] == ((c + g) + t + (d + h))[x] {
      assert (a + s + b)[x] == (c + t + d)[x] && (e + f)[x] == (g + h)[x];
    }
  }

  lemma LentKeys(u: Tree, sep: Key, w: Tree)
    requires u.Leaf? && w.Leaf? && |u.keys| == |u.refs| > 0
    ensures PairBag(LentLeft(u), u.keys[|u.keys| - 1], GotLeft(u, sep, w)) == PairBag(u, sep, w)
  {
    var n := |u.keys| - 1;
    assert u.keys == u.keys[..n] + [u.keys[n]];
  }

  lemma GotKeys(u: Tree, sep: Key, w: Tree)
    requires u.Leaf? && w.Leaf? && |w.keys| == |w.refs| > 0
    ensures PairBag(GotRight(u, sep, w), w.keys[0], LentRight(w)) == PairBag(u, sep, w)
  {
    assert w.keys == [w.keys[0]] + w.keys[1..];
  }

  /** What the parent's bag loses or keeps, the whole tree's does. */
  lemma KeysAbove(t: Tree, path: Path, x: Tree, q: Tree, q': Tree, gone: multiset<Key>)
    requires path != [] && ValidPath(t, path) && x.id == Sub(t, path).id && q == ParentOf(t, path, x)
    requires Keys(q') + gone == Keys(q)
    ensures Keys(Replace(t, Up(path), q')) + gone == Keys(Replace(t, path, x))
  {
    BagReplace(t, Up(path), q', OwnKeys);
    BagReplace(t, Up(path), q, OwnKeys);
    assert Replace(t, path, x) == Replace(t, Up(path), q);
    var p := Sub(t, Up(path));
    forall k ensures (Keys(Replace(t, Up(path), q')) + gone)[k] == Keys(Replace(t, path, x))[k] {
      assert (Keys(Replace(t, Up(path), q')) + Keys(p))[k] == (Keys(t) + Keys(q'))[k];
      assert (Keys(Replace(t, Up(path), q)) + Keys(p))[k] == (Keys(t) + Keys(q))[k];
      assert (Keys(q') + gone)[k] == Keys(q)[k];
    }
  }

  lemma RotationKeys(t: Tree, path: Path, x: Tree, q: Tree, j: nat, i: nat)
    requires path != [] && ValidPath(t, path) && x.id == Sub(t, path).id && q == ParentOf(t, path, x)
    requires q.Node? && j < |q.keys| && j + 1 < |q.kids| && q.kids[j].Node? && q.kids[j + 1].Node?
    requires i < |RunKeys(q.kids[j], q.keys[j], q.kids[j + 1])| && i < |RunKids(q.kids[j], q.kids[j + 1])|
    ensures var u, sep, w := q.kids[j], q.keys[j], q.kids[j + 1];
            Keys(Replace(t, Up(path),
                         Rotated(q, j, CutLeft(u, sep, w, i), RunKeys(u, sep, w)[i], CutRight(u, sep, w, i)))) ==
            Keys(Replace(t, path, x))
  {
    var u, sep, w := q.kids[j], q.keys[j], q.kids[j + 1];
    var a, sep', b := CutLeft(u, sep, w, i), RunKeys(u, sep, w)[i], CutRight(u, sep, w, i);
    CutKeys(u, sep, w, i);
    RotatedKeys(q, j, a, sep', b);
    KeysAbove(t, path, x, q, Rotated(q, j, a, sep', b), multiset{});
  }

  lemma OnlyKidKeys(q: Tree)
    requires q.Node? && q.keys == [] && |q.kids| == 1
    ensures Keys(q) == Keys(q.kids[0])
  {
    assert q.kids[1..] == [];
    assert Bags(q.kids, OwnKeys) == Keys(q.kids[0]) + Bags(q.kids[1..], OwnKeys);
  }
}
