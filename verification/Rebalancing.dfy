/**
  One-node and two-node rewrites behind splits, borrows and merges: each is shown to
  keep the invariant in its place, and its effect on Lookup is given for every key.
 */
module Rebalancing {
  import opened Options
  import opened PageReferences
  import opened Trees

  // ---------------------------------------------------------------- leaves

  lemma LeafLookup(id: PageId, ks: seq<Key>, rs: seq<PageReference>, i: nat)
    requires Sorted(ks) && |ks| == |rs| && i < |ks|
    ensures Lookup(Leaf(id, ks, rs), ks[i]) == Some(rs[i])
  {
    LowerBoundIs(ks, ks[i], i);
  }

  /** A leaf search in terms of its lower bound. */
  lemma LeafAt(id: PageId, ks: seq<Key>, rs: seq<PageReference>, k: Key, i: nat)
    requires |ks| == |rs| && i == LowerBound(ks, k)
    ensures Lookup(Leaf(id, ks, rs), k) == if i < |ks| && ks[i] == k then Some(rs[i]) else None
  {
  }

  lemma LeafInsertLookup(id: PageId, ks: seq<Key>, rs: seq<PageReference>, key: Key, v: PageReference, k: Key)
    requires Sorted(ks) && |ks| == |rs| && key !in ks
    ensures var i := LowerBound(ks, key);
            && Sorted(InsertAt(ks, i, key))
            && Lookup(Leaf(id, InsertAt(ks, i, key), InsertAt(rs, i, v)), k) ==
               if k == key then Some(v) else Lookup(Leaf(id, ks, rs), k)
  {
    var i, j := LowerBound(ks, key), LowerBound(ks, k);
    SortedInsert(ks, i, key);
    LowerBoundInsert(ks, i, key, k);
    LeafAt(id, ks, rs, k, j);
    LeafAt(id, InsertAt(ks, i, key), InsertAt(rs, i, v), k, if j < i || (j == i && k <= key) then j else j + 1);
  }

  lemma LeafRemoveLookup(id: PageId, ks: seq<Key>, rs: seq<PageReference>, i: nat, k: Key)
    requires Sorted(ks) && |ks| == |rs| && i < |ks|
    ensures Lookup(Leaf(id, RemoveAt(ks, i), RemoveAt(rs, i)), k) ==
            if k == ks[i] then None else Lookup(Leaf(id, ks, rs), k)
  {
    var j := LowerBound(ks, k);
    LowerBoundRemove(ks, i, k);
    LeafAt(id, ks, rs, k, j);
    LeafAt(id, RemoveAt(ks, i), RemoveAt(rs, i), k, if j <= i then j else j - 1);
  }

  /** Cutting a run of entries at i and dropping entry i: what a leaf split and a leaf
      borrow do. */
  lemma LeafCutLookup(a: PageId, b: PageId, ks: seq<Key>, rs: seq<PageReference>, i: nat, k: Key)
    requires Sorted(ks) && |ks| == |rs| && i < |ks|
    ensures (if k <= ks[i] then Lookup(Leaf(a, ks[..i], rs[..i]), k)
             else Lookup(Leaf(b, ks[i + 1..], rs[i + 1..]), k)) ==
            if k == ks[i] then None else Lookup(Leaf(a, ks, rs), k)
  {
    var j := LowerBound(ks, k);
    if k <= ks[i] {
      LowerBoundIs(ks[..i], k, j);
    } else {
      LowerBoundIs(ks[i + 1..], k, j - (i + 1));
    }
  }

  lemma LeafCutOk(a: PageId, b: PageId, ks: seq<Key>, rs: seq<PageReference>, i: nat, lo: Bound, hi: Bound, m: Mode)
    requires Sorted(ks) && |ks| == |rs| && i + 1 < |ks| && Within(ks, lo, hi, m.strict)
    requires SizeOk(i, m.caps.leaf, m.fill) && SizeOk(|ks| - i - 1, m.caps.leaf, m.fill)
    ensures Ok(Leaf(a, ks[..i], rs[..i]), 1, lo, At(ks[i]), m, false)
    ensures Ok(Leaf(b, ks[i + 1..], rs[i + 1..]), 1, At(ks[i]), hi, m, false)
    ensures Above(lo, ks[i]) && Below(ks[i], hi, true)
  {
    assert ks[i] < ks[i + 1];
  }

  lemma LeafConcatLookup(id: PageId, ks: seq<Key>, rs: seq<PageReference>, ks': seq<Key>, rs': seq<PageReference>,
                         k: Key)
    requires Sorted(ks + ks') && |ks| == |rs| && |ks'| == |rs'|
    ensures Lookup(Leaf(id, ks + ks', rs + rs'), k) ==
            if k in ks then Lookup(Leaf(id, ks, rs), k) else Lookup(Leaf(id, ks', rs'), k)
  {
    var j, j' := LowerBound(ks, k), LowerBound(ks', k);
    LowerBoundConcat(ks, ks', k);
    LeafAt(id, ks, rs, k, j);
    LeafAt(id, ks', rs', k, j');
    LeafAt(id, ks + ks', rs + rs', k, if j < |ks| then j else |ks| + j');
  }

  /** The lower bound in a run is in its first part, or past it; a key found in the first part
      is in the first part, and what the first part passes over is not in the second. */
  lemma LowerBoundConcat(ks: seq<Key>, ks': seq<Key>, k: Key)
    requires Sorted(ks + ks')
    ensures var j, j' := LowerBound(ks, k), LowerBound(ks', k);
            && LowerBound(ks + ks', k) == (if j < |ks| then j else |ks| + j')
            && (k in ks <==> j < |ks| && ks[j] == k)
            && (j < |ks| && k !in ks ==> j' == |ks'| || ks'[j'] != k)
  {
    var all := ks + ks';
    var j, j' := LowerBound(ks, k), LowerBound(ks', k);
    assert forall x :: 0 <= x < |ks| ==> all[x] == ks[x];
    assert forall x :: 0 <= x < |ks'| ==> all[|ks| + x] == ks'[x];
    LowerBoundIs(all, k, if j < |ks| then j else |ks| + j');
    if j < |ks| && j' < |ks'| { assert all[j] < all[|ks| + j']; }
  }

  // ---------------------------------------------------------------- pairs of neighbours

  /** KidsOk, with nothing said of children j and j + 1. */
  predicate KidsBut(ks: seq<Key>, kids: seq<Tree>, h: nat, lo: Bound, hi: Bound, m: Mode, j: nat) {
    && |kids| == |ks| + 1
    && j < |ks|
    && Sorted(ks)
    && Within(ks, lo, hi, true)
    && forall i :: 0 <= i < |kids| && i != j && i != j + 1 ==>
                     Ok(kids[i], h, LoOf(ks, lo, i), HiOf(ks, hi, i), m, false)
  }

  function Rotated(p: Tree, j: nat, a: Tree, sep: Key, b: Tree): Tree
    requires p.Node? && j < |p.keys| && j + 1 < |p.kids|
  {
    Node(p.id, p.keys[j := sep], p.kids[j := a][j + 1 := b])
  }

  /** p with children j and j + 1 fused into a. */
  function Fused(p: Tree, j: nat, a: Tree): Tree
    requires p.Node? && j < |p.keys| && j + 1 < |p.kids|
  {
    Node(p.id, RemoveAt(p.keys, j), RemoveAt(p.kids, j + 1)[j := a])
  }

  lemma RotatedOk(p: Tree, h: nat, lo: Bound, hi: Bound, m: Mode, j: nat, a: Tree, sep: Key, b: Tree)
    requires p.Node? && KidsBut(p.keys, p.kids, h, lo, hi, m, j)
    requires Ok(a, h, LoOf(p.keys, lo, j), At(sep), m, false)
    requires Ok(b, h, At(sep), HiOf(p.keys, hi, j + 1), m, false)
    requires Above(LoOf(p.keys, lo, j), sep) && Below(sep, HiOf(p.keys, hi, j + 1), true)
    ensures var p' := Rotated(p, j, a, sep, b); KidsOk(p'.keys, p'.kids, h, lo, hi, m)
  {
    var p' := Rotated(p, j, a, sep, b);
    assert Sorted(p'.keys);
    assert Within(p'.keys, lo, hi, true);
    forall i | 0 <= i < |p'.kids|
      ensures Ok(p'.kids[i], h, LoOf(p'.keys, lo, i), HiOf(p'.keys, hi, i), m, false)
    {
      if i != j && i != j + 1 {
        assert Ok(p.kids[i], h, LoOf(p.keys, lo, i), HiOf(p.keys, hi, i), m, false);
      }
    }
  }

  lemma LowerBoundUpdate(ks: seq<Key>, j: nat, sep: Key, k: Key)
    requires j < |ks| && Sorted(ks) && Sorted(ks[j := sep])
    ensures var i := LowerBound(ks, k);
            LowerBound(ks[j := sep], k) == if i != j && i != j + 1 then i else if k <= sep then j else j + 1
  {
    var i := LowerBound(ks, k);
    var ks' := ks[j := sep];
    if i < j { assert ks'[i] == ks[i] && ks'[i] < ks'[j]; }
    LowerBoundIs(ks', k, if i != j && i != j + 1 then i else if k <= sep then j else j + 1);
  }

  lemma RotatedLookup(p: Tree, j: nat, a: Tree, sep: Key, b: Tree, k: Key)
    requires p.Node? && |p.kids| == |p.keys| + 1 && j < |p.keys| && Sorted(p.keys) && Sorted(p.keys[j := sep])
    ensures Lookup(Rotated(p, j, a, sep, b), k) ==
            var i := LowerBound(p.keys, k);
            if i != j && i != j + 1 then Lookup(p, k) else if k <= sep then Lookup(a, k) else Lookup(b, k)
  {
    LowerBoundUpdate(p.keys, j, sep, k);
  }

  lemma FusedOk(p: Tree, h: nat, lo: Bound, hi: Bound, m: Mode, j: nat, a: Tree)
    requires p.Node? && KidsBut(p.keys, p.kids, h, lo, hi, m, j)
    requires Ok(a, h, LoOf(p.keys, lo, j), HiOf(p.keys, hi, j + 1), m, false)
    ensures var p' := Fused(p, j, a); KidsOk(p'.keys, p'.kids, h, lo, hi, m)
  {
    var p' := Fused(p, j, a);
    forall i | 0 <= i < |p'.kids|
      ensures Ok(p'.kids[i], h, LoOf(p'.keys, lo, i), HiOf(p'.keys, hi, i), m, false)
    {
      if i < j {
        assert Ok(p.kids[i], h, LoOf(p.keys, lo, i), HiOf(p.keys, hi, i), m, false);
      } else if i > j {
        assert Ok(p.kids[i + 1], h, LoOf(p.keys, lo, i + 1), HiOf(p.keys, hi, i + 1), m, false);
      }
    }
  }

  lemma LowerBoundRemove(ks: seq<Key>, j: nat, k: Key)
    requires j < |ks| && Sorted(ks)
    ensures var i := LowerBound(ks, k); LowerBound(RemoveAt(ks, j), k) == if i <= j then i else i - 1
  {
    var i := LowerBound(ks, k);
    LowerBoundIs(RemoveAt(ks, j), k, if i <= j then i else i - 1);
  }

  lemma FusedLookup(p: Tree, j: nat, a: Tree, k: Key)
    requires p.Node? && |p.kids| == |p.keys| + 1 && j < |p.keys| && Sorted(p.keys)
    ensures Lookup(Fused(p, j, a), k) ==
            var i := LowerBound(p.keys, k);
            if i != j && i != j + 1 then Lookup(p, k) else Lookup(a, k)
  {
    LowerBoundRemove(p.keys, j, k);
  }

  /** Two neighbouring inner nodes and the separator between them, as one run. */
  lemma JoinKids(ks: seq<Key>, kids: seq<Tree>, ks': seq<Key>, kids': seq<Tree>, sep: Key, h: nat, lo: Bound, hi: Bound,
                 m: Mode)
    requires KidsOk(ks, kids, h, lo, At(sep), m) && KidsOk(ks', kids', h, At(sep), hi, m)
    requires Above(lo, sep) && Below(sep, hi, true)
    ensures KidsOk(ks + [sep] + ks', kids + kids', h, lo, hi, m)
  {
    var all, allKids := ks + [sep] + ks', kids + kids';
    forall i | 0 <= i < |allKids|
      ensures Ok(allKids[i], h, LoOf(all, lo, i), HiOf(all, hi, i), m, false)
    {
      if i < |kids| {
        assert Ok(kids[i], h, LoOf(ks, lo, i), HiOf(ks, At(sep), i), m, false);
      } else {
        var j := i - |kids|;
        assert Ok(kids'[j], h, LoOf(ks', At(sep), j), HiOf(ks', hi, j), m, false);
      }
    }
  }
}
