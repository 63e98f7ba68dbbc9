/**
  Runs from an empty tree to the trees on which erase departs from a plain removal.
 */
module ReachedTrees {
  import opened Options
  import opened PageReferences
  import opened Trees
  import opened Inserting
  import opened Space
  import opened BTrees
  import opened Deleting
  import opened TreeShapes
  import opened TreeAudits
  import TreeRuns

  // ---------------------------------------------------------------- two leaves

  lemma SortedMembers(a: seq<Key>, b: seq<Key>)
    requires Sorted(a) && Sorted(b) && forall k :: k in a <==> k in b
    ensures a == b
  {
    SeqOnce(a);
    SeqOnce(b);
    forall k ensures multiset(a)[k] == multiset(b)[k] {
      assert k in multiset(a) <==> k in a;
      assert k in multiset(b) <==> k in b;
    }
    SortedSame(a, b);
  }

  /** The tree finds the keys of both sequences, d lies between them, and besides what it finds
      it has only d. */
  ghost predicate Parted(t: Tree, low: seq<Key>, d: Key, high: seq<Key>) {
    && Sorted(low) && Sorted(high)
    && (forall i :: 0 <= i < |low| ==> low[i] <= d) && (forall i :: 0 <= i < |high| ==> d < high[i])
    && (forall k :: Lookup(t, k).Some? <==> k in low || k in high)
    && (forall k :: Keys(t)[k] == Found(t, k) + if k == d then 1 else 0)
  }

  /** Such a tree is a root over two leaves with those keys. */
  lemma TwoLeaves(t: Tree, h: nat, m: Mode, low: seq<Key>, d: Key, high: seq<Key>)
    requires Ok(t, h, Inf, Inf, m, true) && m.fill && m.caps.inner >= 2 && Parted(t, low, d, high)
    ensures h == 2 && t.keys == [d] && |t.kids| == 2
    ensures t.kids[0].Leaf? && t.kids[0].keys == low && |t.kids[0].refs| == |low|
    ensures t.kids[1].Leaf? && t.kids[1].keys == high && |t.kids[1].refs| == |high|
  {
    forall k ensures SepBag(t)[k] == multiset{d}[k] { KeyCount(t, h, Inf, Inf, m, true, k); }
    OneSeparator(t, h, m, d);
    LeafAt(t, h, m, low, d, high, d);
    LeafAt(t, h, m, low, d, high, d + 1);
    LowerBoundIs([d], d, 0);
    LowerBoundIs([d], d + 1, 1);
  }

  lemma LeafAt(t: Tree, h: nat, m: Mode, low: seq<Key>, d: Key, high: seq<Key>, k: Key)
    requires Ok(t, h, Inf, Inf, m, true) && Parted(t, low, d, high) && SepBag(t) == multiset{d}
    requires k == d || k == d + 1
    ensures var x := LeafFor(t, k);
            x.Leaf? && x.keys == (if k <= d then low else high) && |x.refs| == |x.keys|
  {
    var a, c := LeafBlock(t, h, Inf, Inf, m, true, k);
    assert d in SepBag(t);
    var x := LeafFor(t, k);
    if k <= d {
      assert c == At(d) && a == Inf;
      forall y ensures y in x.keys <==> y in low { if y in high { var i :| 0 <= i < |high| && high[i] == y; } }
      SortedMembers(x.keys, low);
    } else {
      assert a == At(d) && c == Inf;
      forall y ensures y in x.keys <==> y in high { if y in low { var i :| 0 <= i < |low| && low[i] == y; } }
      SortedMembers(x.keys, high);
    }
  }

  /** Inserting below d into a left leaf with room. */
  lemma PartedMore(t: Tree, h: nat, m: Mode, low: seq<Key>, d: Key, high: seq<Key>, t': Tree, x: Key, v: PageReference,
                   low': seq<Key>)
    requires Ok(t, h, Inf, Inf, m, true) && m.fill && m.caps.inner >= 2 && Parted(t, low, d, high)
    requires |low| < m.caps.leaf && x <= d && x !in low && HasInserted(t, x, v, m.caps, t')
    requires Sorted(low') && forall k :: k in low' <==> k in low || k == x
    ensures Parted(t', low', d, high)
  {
    NotAbove(low, d, high, x);
    forall i | 0 <= i < |low'| ensures low'[i] <= d { assert low'[i] in low'; }
    forall k
      ensures Lookup(t', k).Some? <==> k in low' || k in high
      ensures Keys(t')[k] == Found(t', k) + if k == d then 1 else 0
    {
      RoomBelow(t, h, m, low, d, high, x, v, k);
      assert Keys(t')[k] == Keys(t)[k] + if k == x then 1 else 0;
    }
  }

  lemma RoomBelow(t: Tree, h: nat, m: Mode, low: seq<Key>, d: Key, high: seq<Key>, x: Key, v: PageReference, k: Key)
    requires Ok(t, h, Inf, Inf, m, true) && m.fill && m.caps.inner >= 2 && Parted(t, low, d, high)
    requires |low| < m.caps.leaf && x <= d
    ensures Updated(t, x, v, m.caps, k) == if k == x then Some(v) else Lookup(t, k)
  {
    TwoLeaves(t, h, m, low, d, high);
    LowerBoundIs([d], x, 0);
    assert LeafFor(t, x) == LeafFor(t.kids[0], x);
  }

  lemma NotAbove(low: seq<Key>, d: Key, high: seq<Key>, x: Key)
    requires x <= d && forall i :: 0 <= i < |high| ==> d < high[i]
    ensures x !in high
  {
    assert forall i :: 0 <= i < |high| ==> high[i] != x;
  }

  /** Inserting a key that is not found, into a tree that is there. */
  method InsertNew(b: BTree, key: Key, v: PageReference)
    requires b.Valid(Mode(b.caps, false, true)) && !b.Empty() && Lookup(b.tree, key).None? && v.IsValid()
    requires Spare(b.space.Live()) > b.height
    modifies b, b.space.pages, b.space.freeMap
    ensures b.Valid(Mode(b.caps, false, true)) && !b.Empty() && b.size == old(b.size) + 1
    ensures HasInserted(old(b.tree), key, v, b.caps, b.tree)
    ensures Spare(b.space.Live()) >= old(Spare(b.space.Live())) - old(b.height) - 1
  {
    var st := b.Insert(key, v, Mode(b.caps, false, true));
    forall k ensures Lookup(b.tree, k) == Updated(old(b.tree), key, v, b.caps, k) {
      assert Lookup(b.tree, k) == b.Value(k);
    }
  }

  method InsertLow(b: BTree, x: Key, v: PageReference, ghost low: seq<Key>, ghost d: Key, ghost high: seq<Key>,
                   ghost low': seq<Key>)
    requires TreeRuns.Counted(b) && !b.Empty() && Parted(b.tree, low, d, high) && |low| < b.caps.leaf
    requires x <= d && x !in low && v.IsValid() && Spare(b.space.Live()) > 2
    requires Sorted(low') && forall k :: k in low' <==> k in low || k == x
    modifies b, b.space.pages, b.space.freeMap
    ensures TreeRuns.Counted(b) && !b.Empty() && Parted(b.tree, low', d, high)
  {
    ghost var m, t, h := Mode(b.caps, false, true), b.tree, b.height;
    TwoLeaves(t, h, m, low, d, high);
    NotAbove(low, d, high, x);
    InsertNew(b, x, v);
    PartedMore(t, h, m, low, d, high, b.tree, x, v, low');
  }

  /** Erasing from the right leaf at its minimum while the left one has keys to spare. */
  lemma PartedBorrows(t: Tree, h: nat, m: Mode, low: seq<Key>, d: Key, high: seq<Key>)
    requires Ok(t, h, Inf, Inf, m, true) && m.fill && m.caps.inner >= 2 && Parted(t, low, d, high)
    requires 0 < |high| <= m.caps.leaf / 2 < |low|
    ensures var n := |low| - 1;
            && Borrows(t, high[0], m.caps) && (Breaks(t, high[0], m.caps) <==> d in low)
            && LeafParent(t, high[0]) == t && LowerBound(t.keys, high[0]) == 1
            && t.Node? && |t.kids| == 2 && t.kids[0].keys == low && t.keys == [d]
            && PairIndex(t, 1, m.caps.leaf / 2) == 0
  {
    TwoLeaves(t, h, m, low, d, high);
    LowerBoundIs([d], high[0], 1);
  }

  // ---------------------------------------------------------------- the runs

  /** The even keys from the c-th on, up to the n-th. */
  function HighEvens(c: nat, n: nat): (ks: seq<Key>)
    requires c <= n
    ensures |ks| == n - c && forall i :: 0 <= i < n - c ==> ks[i] == 2 * (c + i)
  {
    seq(n - c, i => 2 * (c + i))
  }

  lemma EvensParted(c: nat, n: nat, k: Key)
    requires c <= n
    ensures k in Evens(n) <==> k in Evens(c) || k in HighEvens(c, n)
  {
    if k in Evens(n) {
      var i :| 0 <= i < n && Evens(n)[i] == k;
      if i < c { assert Evens(c)[i] == k; } else { assert HighEvens(c, n)[i - c] == k; }
    }
    if k in Evens(c) { var i :| 0 <= i < c && Evens(c)[i] == k; assert Evens(n)[i] == k; }
    if k in HighEvens(c, n) { var i :| 0 <= i < n - c && HighEvens(c, n)[i] == k; assert Evens(n)[c + i] == k; }
  }

  /** A tree with the first n even keys, and an odd one of which it has no entry. */
  lemma MiddleParted(t: Tree, n: nat, c: nat, d: Key)
    requires 1 <= c <= n && d == 2 * c - 1 && (forall k :: Lookup(t, k).Some? <==> k in Evens(n))
    requires Keys(t) == multiset(Evens(n)) + multiset{d}
    ensures Parted(t, Evens(c), d, HighEvens(c, n))
  {
    forall k
      ensures Lookup(t, k).Some? <==> k in Evens(c) || k in HighEvens(c, n)
      ensures Keys(t)[k] == Found(t, k) + if k == d then 1 else 0
    {
      EvensParted(c, n, k);
      OnceIn(Evens(n), k);
    }
  }

  lemma OnceIn(ks: seq<Key>, k: Key)
    requires Sorted(ks)
    ensures multiset(ks)[k] == if k in ks then 1 else 0
  {
    SeqOnce(ks);
    assert k in multiset(ks) <==> k in ks;
  }

  /** The number of keys left of the middle of a full leaf and one more. */
  function Middle(caps: Caps): (c: nat)
    requires caps.leaf >= 2
    ensures 1 <= c < caps.leaf && MiddleKey(caps) == 2 * c - 1 && caps.leaf - c <= caps.leaf / 2 < c + 1
  {
    (caps.leaf + 1) / 2
  }

  /** Brings a new tree to where the middle key was promoted. */
  method PromoteMiddle(b: BTree, v: PageReference)
    requires HoldsEvens(b, 0) && v.IsValid() && Spare(b.space.Live()) > 2 * b.caps.leaf + 5
    modifies b, b.space.pages, b.space.freeMap
    ensures TreeRuns.Counted(b) && !b.Empty() && Spare(b.space.Live()) > 2
    ensures var c := Middle(b.caps); Parted(b.tree, Evens(c), 2 * c - 1, HighEvens(c, b.caps.leaf))
  {
    FillLeaf(b, v);
    var st := InsertMiddle(b, v);
    Promoted(b, Middle(b.caps), MiddleKey(b.caps));
  }

  lemma Promoted(b: BTree, c: nat, d: Key)
    requires 1 <= c <= b.caps.leaf && d == 2 * c - 1 && (forall k :: b.Value(k).Some? <==> k in Evens(b.caps.leaf))
    requires b.KeyBag() == multiset(Evens(b.caps.leaf)) + multiset{d}
    ensures !b.Empty() && Parted(b.tree, Evens(c), d, HighEvens(c, b.caps.leaf))
  {
    assert d in b.KeyBag();
    forall k ensures Lookup(b.tree, k).Some? <==> k in Evens(b.caps.leaf) { assert b.Value(k) == Lookup(b.tree, k); }
    MiddleParted(b.tree, b.caps.leaf, c, d);
  }

  /** For every capacity, a run of inserts and one erase after which no form of the invariant
      holds: the promoted key is inserted again, and the leaf to its right erases one. */
  method BreakRun(space: SpaceManager, caps: Caps, v: PageReference) returns (b: BTree, st: Status)
    requires space.Valid() && caps.leaf >= 2 && caps.inner >= 2
    requires v.IsValid() && Spare(space.Live()) > 2 * caps.leaf + 5
    modifies space.pages, space.freeMap
    ensures fresh(b) && st == Done && Broken(b)
  {
    b := new BTree(space, caps);
    st := Break(b, v);
  }

  method Break(b: BTree, v: PageReference) returns (st: Status)
    requires HoldsEvens(b, 0) && v.IsValid() && Spare(b.space.Live()) > 2 * b.caps.leaf + 5
    modifies b, b.space.pages, b.space.freeMap
    ensures st == Done && Broken(b)
  {
    PromoteMiddle(b, v);
    st := BreakAt(b, v, Middle(b.caps));
  }

  method BreakAt(b: BTree, v: PageReference, c: nat) returns (st: Status)
    requires TreeRuns.Counted(b) && !b.Empty() && v.IsValid() && Spare(b.space.Live()) > 2
    requires 1 <= c < b.caps.leaf && b.caps.leaf - c <= b.caps.leaf / 2 < c + 1
    requires Parted(b.tree, Evens(c), 2 * c - 1, HighEvens(c, b.caps.leaf))
    modifies b, b.space.pages, b.space.freeMap
    ensures st == Done && Broken(b)
  {
    var d := 2 * c - 1;
    ghost var low, high := Evens(c) + [d], HighEvens(c, b.caps.leaf);
    WithLast(c, d);
    InsertLow(b, d, v, Evens(c), d, high, low);
    st := EraseHigh(b, d + 1, low, d, high);
  }

  lemma WithLast(c: nat, d: Key)
    requires d == 2 * c - 1
    ensures var low := Evens(c) + [d];
            && d !in Evens(c) && d in low && Sorted(low) && |low| == c + 1
            && forall k :: k in low <==> k in Evens(c) || k == d
  {
    assert (Evens(c) + [d])[c] == d;
  }

  lemma InsertMembers(ks: seq<Key>, i: nat, x: Key, k: Key)
    requires i <= |ks|
    ensures k in InsertAt(ks, i, x) <==> k in ks || k == x
  {
    var low := InsertAt(ks, i, x);
    assert low[i] == x;
    if k in ks {
      var j :| 0 <= j < |ks| && ks[j] == k;
      assert low[if j < i then j else j + 1] == k;
    }
  }

  lemma WithOdd(c: nat, x: Key)
    requires c >= 1 && x == 2 * c - 3
    ensures var low := InsertAt(Evens(c), c - 1, x);
            && x !in Evens(c) && Sorted(low) && |low| == c + 1 && low[c] == 2 * c - 2 && 2 * c - 1 !in low
            && forall k :: k in low <==> k in Evens(c) || k == x
  {
    SortedInsert(Evens(c), c - 1, x);
    forall k ensures k in InsertAt(Evens(c), c - 1, x) <==> k in Evens(c) || k == x {
      InsertMembers(Evens(c), c - 1, x, k);
    }
  }

  method EraseHigh(b: BTree, key: Key, ghost low: seq<Key>, ghost d: Key, ghost high: seq<Key>) returns (st: Status)
    requires TreeRuns.Counted(b) && !b.Empty() && Parted(b.tree, low, d, high) && d in low
    requires 0 < |high| <= b.caps.leaf / 2 < |low| && key == high[0]
    modifies b, b.space.pages, b.space.freeMap
    ensures st == Done && Broken(b)
  {
    ghost var m, e := Mode(b.caps, false, true), Exact;
    PartedBorrows(b.tree, b.height, m, low, d, high);
    assert Lookup(b.tree, key).Some?;
    st, e := Erase(b, key, m);
  }

  /** For every capacity, a run of inserts and one erase after which a promoted key, `to`, is found
      with the reference that another key, `from`, had before, and `from` is found no more. */
  method MisplaceRun(space: SpaceManager, caps: Caps, v: PageReference)
    returns (b: BTree, st: Status, from: Key, to: Key, before: Option<PageReference>)
    requires space.Valid() && caps.leaf >= 2 && caps.inner >= 2
    requires v.IsValid() && Spare(space.Live()) > 2 * caps.leaf + 5
    modifies space.pages, space.freeMap
    ensures fresh(b) && st == Done && before.Some? && b.Value(to) == before && b.Value(from) == None
  {
    b := new BTree(space, caps);
    st, from, to, before := Misplace(b, v);
  }

  method Misplace(b: BTree, v: PageReference)
    returns (st: Status, from: Key, to: Key, before: Option<PageReference>)
    requires HoldsEvens(b, 0) && v.IsValid() && Spare(b.space.Live()) > 2 * b.caps.leaf + 5
    modifies b, b.space.pages, b.space.freeMap
    ensures st == Done && before.Some? && b.Value(to) == before && b.Value(from) == None
  {
    PromoteMiddle(b, v);
    st, from, to, before := MisplaceAt(b, v, Middle(b.caps));
  }

  method MisplaceAt(b: BTree, v: PageReference, c: nat)
    returns (st: Status, from: Key, to: Key, before: Option<PageReference>)
    requires TreeRuns.Counted(b) && !b.Empty() && v.IsValid() && Spare(b.space.Live()) > 2
    requires 1 <= c < b.caps.leaf && b.caps.leaf - c <= b.caps.leaf / 2 < c + 1
    requires Parted(b.tree, Evens(c), 2 * c - 1, HighEvens(c, b.caps.leaf))
    modifies b, b.space.pages, b.space.freeMap
    ensures st == Done && before.Some? && b.Value(to) == before && b.Value(from) == None
  {
    var x: Key := 2 * c - 3;
    ghost var low, high := InsertAt(Evens(c), c - 1, x), HighEvens(c, b.caps.leaf);
    WithOdd(c, x);
    InsertLow(b, x, v, Evens(c), x + 2, high, low);
    from, to := x + 1, x + 2;
    st, before := ShowLent(b, x + 3, from, to, low, high);
  }

  method ShowLent(b: BTree, key: Key, last: Key, d: Key, ghost low: seq<Key>, ghost high: seq<Key>)
    returns (st: Status, before: Option<PageReference>)
    requires TreeRuns.Counted(b) && !b.Empty() && Parted(b.tree, low, d, high) && d !in low
    requires 0 < |high| <= b.caps.leaf / 2 < |low| && key == high[0] && last == low[|low| - 1]
    modifies b, b.space.pages, b.space.freeMap
    ensures st == Done && before.Some? && before == old(b.Value(last)) && b.Value(d) == before && b.Value(last) == None
  {
    before := b.Find(last, Mode(b.caps, false, true));
    st := EraseLent(b, key, last, d, low, high);
  }

  method EraseLent(b: BTree, key: Key, last: Key, d: Key, ghost low: seq<Key>, ghost high: seq<Key>)
    returns (st: Status)
    requires TreeRuns.Counted(b) && !b.Empty() && Parted(b.tree, low, d, high) && d !in low
    requires 0 < |high| <= b.caps.leaf / 2 < |low| && key == high[0] && last == low[|low| - 1]
    modifies b, b.space.pages, b.space.freeMap
    ensures st == Done && b.Valid(Mode(b.caps, false, true))
    ensures old(b.Value(last)).Some? && b.Value(d) == old(b.Value(last)) && b.Value(last) == None
  {
    ghost var m, t, h, e := Mode(b.caps, false, true), b.tree, b.height, Exact;
    PartedBorrows(t, h, m, low, d, high);
    assert Lookup(t, key).Some? && Lookup(t, last).Some?;
    st, e := Erase(b, key, m);
    LentEffect(t, h, m, low, d, high, st, e);
  }

  lemma LentEffect(t: Tree, h: nat, m: Mode, low: seq<Key>, d: Key, high: seq<Key>, st: Status, e: Effect)
    requires Ok(t, h, Inf, Inf, m, true) && m.fill && m.caps.inner >= 2 && Parted(t, low, d, high) && d !in low
    requires 0 < |high| <= m.caps.leaf / 2 < |low| && Outcome(t, high[0], m.caps, st, e)
    ensures st == Done && e.Moved? && e.sep == d && e.key == low[|low| - 1]
  {
    PartedBorrows(t, h, m, low, d, high);
  }
}
