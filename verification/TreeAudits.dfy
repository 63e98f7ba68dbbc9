/**
  Validating a tree that inserts built: it is accepted exactly when no key was accepted twice.
 */
module TreeAudits {
  import opened Options
  import opened PageReferences
  import opened Trees
  import opened Stores
  import opened Inserting
  import opened Space
  import opened BTrees
  import TreeRuns
  import TreeValidation

  // ---------------------------------------------------------------- keys that occur twice

  predicate NoneTwice(ks: multiset<Key>) { forall k :: k in ks ==> ks[k] <= 1 }

  lemma {:induction false} SeqOnce(ks: seq<Key>)
    requires Sorted(ks)
    ensures NoneTwice(multiset(ks))
  {
    if ks != [] {
      var n := |ks| - 1;
      SeqOnce(ks[..n]);
      assert ks == ks[..n] + [ks[n]];
      assert ks[n] !in ks[..n];
    }
  }

  lemma {:induction false} KeysWithin(t: Tree, h: nat, lo: Bound, hi: Bound, m: Mode, root: bool, k: Key)
    requires Ok(t, h, lo, hi, m, root) && k in Keys(t)
    ensures Above(lo, k) && Below(k, hi, m.strict)
    decreases t, 1
  {
    if t.Leaf? {
      assert k in t.keys;
    } else if k in t.keys {
    } else {
      assert k in Bags(t.kids, OwnKeys);
      var i := KeyInKid(t.kids, k);
      KeysWithin(t.kids[i], h - 1, LoOf(t.keys, lo, i), HiOf(t.keys, hi, i), m, false, k);
    }
  }

  lemma {:induction false} KeyInKid(ts: seq<Tree>, k: Key) returns (i: nat)
    requires k in Bags(ts, OwnKeys)
    ensures i < |ts| && k in Keys(ts[i])
  {
    if k in Keys(ts[0]) {
      i := 0;
    } else {
      i := KeyInKid(ts[1..], k);
      i := i + 1;
    }
  }

  // ---------------------------------------------------------------- strict means no key twice

  /** In a strict tree no key occurs twice. */
  lemma {:induction false} StrictOnce(t: Tree, h: nat, lo: Bound, hi: Bound, m: Mode, root: bool)
    requires Ok(t, h, lo, hi, m, root) && m.strict
    ensures NoneTwice(Keys(t))
    decreases t, 1
  {
    SeqOnce(t.keys);
    if t.Node? {
      KidsOnce(t.keys, t.kids, 0, h - 1, lo, hi, m);
      assert t.kids[0..] == t.kids;
      forall k | k in Keys(t) ensures Keys(t)[k] <= 1 {
        if k in t.keys && k in Bags(t.kids, OwnKeys) { NotAKid(t.keys, t.kids, h - 1, lo, hi, m, k); }
      }
    }
  }

  /** A separator is a key of no child. */
  lemma NotAKid(ks: seq<Key>, kids: seq<Tree>, h: nat, lo: Bound, hi: Bound, m: Mode, k: Key)
    requires KidsOk(ks, kids, h, lo, hi, m) && m.strict && k in ks
    ensures k !in Bags(kids, OwnKeys)
  {
    var j :| 0 <= j < |ks| && ks[j] == k;
    if k in Bags(kids, OwnKeys) {
      var i := KeyInKid(kids, k);
      KeysWithin(kids[i], h, LoOf(ks, lo, i), HiOf(ks, hi, i), m, false, k);
    }
  }

  lemma {:induction false} KidsOnce(ks: seq<Key>, kids: seq<Tree>, i: nat, h: nat, lo: Bound, hi: Bound, m: Mode)
    requires KidsOk(ks, kids, h, lo, hi, m) && m.strict && i <= |kids|
    ensures NoneTwice(Bags(kids[i..], OwnKeys))
    decreases kids, 0, |kids| - i
  {
    if i < |kids| {
      var a, rest := Keys(kids[i]), Bags(kids[i + 1..], OwnKeys);
      StrictOnce(kids[i], h, LoOf(ks, lo, i), HiOf(ks, hi, i), m, false);
      KidsOnce(ks, kids, i + 1, h, lo, hi, m);
      assert kids[i..][1..] == kids[i + 1..];
      forall k | k in a && k in rest ensures false { TwoKids(ks, kids, i, h, lo, hi, m, k); }
    }
  }

  /** A key of a child is a key of no later child. */
  lemma TwoKids(ks: seq<Key>, kids: seq<Tree>, i: nat, h: nat, lo: Bound, hi: Bound, m: Mode, k: Key)
    requires KidsOk(ks, kids, h, lo, hi, m) && i < |kids| && k in Keys(kids[i])
    ensures k !in Bags(kids[i + 1..], OwnKeys)
  {
    if k in Bags(kids[i + 1..], OwnKeys) {
      var j := KeyInKid(kids[i + 1..], k);
      KeysWithin(kids[i], h, LoOf(ks, lo, i), HiOf(ks, hi, i), m, false, k);
      KeysWithin(kids[i + 1 + j], h, LoOf(ks, lo, i + 1 + j), HiOf(ks, hi, i + 1 + j), m, false, k);
    }
  }

  /** A tree in which no key occurs twice is strict. */
  lemma {:induction false} OnceStrict(t: Tree, h: nat, lo: Bound, hi: Bound, m: Mode, root: bool)
    requires Ok(t, h, lo, hi, m, root) && NoneTwice(Keys(t)) && (hi.At? ==> hi.key !in Keys(t))
    ensures Ok(t, h, lo, hi, m.(strict := true), root)
  {
    if t.Leaf? {
      assert forall i :: 0 <= i < |t.keys| ==> t.keys[i] in Keys(t);
    } else {
      forall i | 0 <= i < |t.kids|
        ensures Ok(t.kids[i], h - 1, LoOf(t.keys, lo, i), HiOf(t.keys, hi, i), m.(strict := true), false)
      {
        KidOnce(t, i, hi);
        OnceStrict(t.kids[i], h - 1, LoOf(t.keys, lo, i), HiOf(t.keys, hi, i), m, false);
      }
    }
  }

  lemma KidOnce(t: Tree, i: nat, hi: Bound)
    requires t.Node? && |t.kids| == |t.keys| + 1 && i < |t.kids|
    requires NoneTwice(Keys(t)) && (hi.At? ==> hi.key !in Keys(t))
    ensures NoneTwice(Keys(t.kids[i])) && (HiOf(t.keys, hi, i).At? ==> HiOf(t.keys, hi, i).key !in Keys(t.kids[i]))
  {
    BagsAt(t.kids, i, OwnKeys);
    assert Keys(t.kids[i]) <= Keys(t);
    if i < |t.keys| { assert t.keys[i] in multiset(t.keys); }
  }

  /** Strict, for a tree in order, means that no key occurs twice among leaf keys and
      separators. */
  lemma StrictIffOnce(t: Tree, h: nat, m: Mode)
    requires Ok(t, h, Inf, Inf, m, true)
    ensures Ok(t, h, Inf, Inf, m.(strict := true), true) <==> NoneTwice(Keys(t))
  {
    if NoneTwice(Keys(t)) { OnceStrict(t, h, Inf, Inf, m, true); }
    if Ok(t, h, Inf, Inf, m.(strict := true), true) { StrictOnce(t, h, Inf, Inf, m.(strict := true), true); }
  }

  // ---------------------------------------------------------------- what an insert does to strictness

  lemma {:induction false} OnPathKey(t: Tree, k: Key)
    requires OnPath(t, k)
    ensures k in Keys(t)
  {
    if k !in t.keys {
      var i := LowerBound(t.keys, k);
      OnPathKey(t.kids[i], k);
      BagsAt(t.kids, i, OwnKeys);
    }
  }

  /** A key of the tree is a separator on its own path, or found. */
  lemma {:induction false} KeyReached(t: Tree, h: nat, lo: Bound, hi: Bound, m: Mode, root: bool, k: Key)
    requires Ok(t, h, lo, hi, m, root) && k in Keys(t)
    ensures OnPath(t, k) || Lookup(t, k).Some?
  {
    if t.Leaf? {
      var i :| 0 <= i < |t.keys| && t.keys[i] == k;
      LowerBoundIs(t.keys, k, i);
    } else if k !in t.keys {
      assert k in Bags(t.kids, OwnKeys);
      var i := KeyInKid(t.kids, k);
      KeysWithin(t.kids[i], h - 1, LoOf(t.keys, lo, i), HiOf(t.keys, hi, i), m, false, k);
      LowerBoundIs(t.keys, k, i);
      KeyReached(t.kids[i], h - 1, LoOf(t.keys, lo, i), HiOf(t.keys, hi, i), m, false, k);
    }
  }

  /** A key the search does not find is in the tree exactly when it is a separator on its
      own path. */
  lemma InTreeIffOnPath(t: Tree, h: nat, m: Mode, key: Key)
    requires Ok(t, h, Inf, Inf, m, true) && Lookup(t, key).None?
    ensures key in Keys(t) <==> OnPath(t, key)
  {
    if OnPath(t, key) { OnPathKey(t, key); }
    if key in Keys(t) { KeyReached(t, h, Inf, Inf, m, true, key); }
  }

  lemma OneMoreKey(ks: multiset<Key>, k: Key)
    ensures NoneTwice(ks + multiset{k}) <==> NoneTwice(ks) && k !in ks
  {
    if NoneTwice(ks + multiset{k}) {
      forall x | x in ks ensures ks[x] <= 1 { assert (ks + multiset{k})[x] <= 1; }
      assert k in ks ==> (ks + multiset{k})[k] >= 2;
    }
  }

  // ---------------------------------------------------------------- validating the object

  lemma {:induction false} Named(s: Store, t: Tree)
    requires Represents(s, t) && INVALID_PAGE !in s.Ids()
    ensures TreeValidation.KidsNamed(t)
  {
    if t.Node? {
      forall i | 0 <= i < |t.kids| ensures t.kids[i].id != INVALID_PAGE && TreeValidation.KidsNamed(t.kids[i]) {
        Named(s, t.kids[i]);
      }
    }
  }

  /** Reading the page maps from the root gives back the tree they stand for. */
  lemma {:induction false} ReadBack(s: Store, t: Tree, h: nat, lo: Bound, hi: Bound, m: Mode, root: bool)
    requires Represents(s, t) && Ok(t, h, lo, hi, m, root)
    ensures TreeValidation.Bounded(s, t.id, h) && TreeValidation.TreeOf(s, t.id, h) == Some(t)
    ensures TreeValidation.Height(t) == h
  {
    if t.Node? {
      var c := s.inners[t.id].children;
      forall i | 0 <= i < |t.kids|
        ensures TreeValidation.Bounded(s, c[i], h - 1) && TreeValidation.TreeOf(s, c[i], h - 1) == Some(t.kids[i])
        ensures TreeValidation.Height(t.kids[i]) == h - 1
      {
        ReadBack(s, t.kids[i], h - 1, LoOf(t.keys, lo, i), HiOf(t.keys, hi, i), m, false);
      }
      assert TreeValidation.TreesOf(s, c, h - 1).value == t.kids;
    }
  }

  ghost predicate Strict(b: BTree, m: Mode) reads b {
    !b.Empty() ==> Ok(b.tree, b.height, Inf, Inf, m.(strict := true), true)
  }

  lemma LiveNamed(b: BTree)
    requires b.SpaceOk()
    ensures INVALID_PAGE !in b.Maps().Ids()
  {
    assert INVALID_PAGE !in b.space.Live();
  }

  lemma StoredIff(s: Store, t: Tree, h: nat, m: Mode)
    requires Good(s, t, h, m) && INVALID_PAGE !in s.Ids()
    ensures TreeValidation.Bounded(s, t.id, h)
    ensures TreeValidation.Fits(s, t.id, h, 1, 0, Inf, Inf, m.caps) <==>
            Ok(t, h, Inf, Inf, m.(strict := true), true)
  {
    Named(s, t);
    ReadBack(s, t, h, Inf, Inf, m, true);
    TreeValidation.AcceptedIffStrict(t, h, m);
  }

  /** The validator, run over the page maps of any valid tree, accepts exactly when no key
      occurs twice among leaf keys and separators. */
  method Audit(b: BTree, ghost m: Mode) returns (ok: bool)
    requires b.Valid(m)
    ensures ok <==> Strict(b, m)
    ensures ok <==> NoneTwice(b.KeyBag())
  {
    LiveNamed(b);
    if b.rootId != INVALID_PAGE {
      StoredIff(b.Maps(), b.tree, b.height, m);
      StrictIffOnce(b.tree, b.height, m);
    }
    ok := TreeValidation.Validate(Store(b.leaves, b.inners), b.caps, b.rootId, b.height);
  }

  /** Inserting and then validating: the tree is accepted exactly when it was acceptable
      before and the key was no separator on its own path. */
  method InsertThenAudit(b: BTree, key: Key, v: PageReference, ghost m: Mode) returns (st: Status, ok: bool)
    requires b.Valid(m)
    modifies b, b.space.pages, b.space.freeMap
    ensures st == Done ==>
              (ok <==> old(Strict(b, m)) && (old(b.Empty()) || !OnPath(old(b.tree), key)))
    ensures st == InvalidReference || st == Duplicate ==> (ok <==> old(Strict(b, m)))
  {
    ghost var was := b.KeyBag();
    if b.rootId != INVALID_PAGE {
      StrictIffOnce(b.tree, b.height, m);
      if b.Value(key).None? { InTreeIffOnPath(b.tree, b.height, m, key); }
    }
    ghost var after := if b.Empty() then m else AfterInsert(b.tree, key, m);
    ok := false;
    st := b.Insert(key, v, m);
    if st == Done {
      ok := Audit(b, after);
      OneMoreKey(was, key);
    } else if st == InvalidReference || st == Duplicate {
      ok := Audit(b, m);
    }
  }

  // ---------------------------------------------------------------- whole runs

  /** After any run of inserts into a new tree the validator accepts exactly when no key was
      accepted twice. */
  method AuditRun(space: SpaceManager, caps: Caps, entries: seq<(Key, PageReference)>)
    returns (b: BTree, ok: seq<bool>, valid: bool, ghost trees: seq<Option<Tree>>)
    requires space.Valid() && caps.leaf >= 2 && caps.inner >= 2
    modifies space.pages, space.freeMap
    ensures |ok| <= |entries| && (valid <==> NoneTwice(TreeRuns.Accepted(entries[..|ok|], ok)))
    ensures TreeRuns.Steps(trees, entries, ok, caps) && (|ok| < |entries| ==> Spare(space.Live()) <= b.height)
  {
    b, ok, trees := TreeRuns.InsertAll(space, caps, entries);
    valid := Audit(b, Mode(caps, false, true));
  }

  /** In a strict tree no separator of the root is found. */
  lemma SeparatorHidden(t: Tree, h: nat, m: Mode, root: bool, i: nat)
    requires Ok(t, h, Inf, Inf, m, root) && m.strict && t.Node? && i < |t.keys|
    ensures Lookup(t, t.keys[i]).None?
  {
    var k := t.keys[i];
    LowerBoundIs(t.keys, k, i);
    match Lookup(t.kids[i], k)
    case None =>
    case Some(r) =>
      FoundKey(t.kids[i], k);
      KeysWithin(t.kids[i], h - 1, LoOf(t.keys, Inf, i), HiOf(t.keys, Inf, i), m, false, k);
  }

  lemma {:induction false} FoundKey(t: Tree, k: Key)
    requires Lookup(t, k).Some?
    ensures k in Keys(t)
  {
    var i := LowerBound(t.keys, k);
    if t.Leaf? {
      assert t.keys[i] in t.keys;
    } else {
      FoundKey(t.kids[i], k);
      BagsAt(t.kids, i, OwnKeys);
    }
  }

  /** A tree that holds no key twice and finds every key it holds is a single leaf. */
  lemma AllFoundIsLeaf(t: Tree, h: nat, m: Mode)
    requires Ok(t, h, Inf, Inf, m, true) && m.fill && NoneTwice(Keys(t))
    requires forall k :: k in Keys(t) ==> Lookup(t, k).Some?
    ensures t.Leaf? && h == 1
  {
    if t.Node? {
      StrictIffOnce(t, h, m);
      assert t.keys[0] in Keys(t);
      SeparatorHidden(t, h, m.(strict := true), true, 0);
    }
  }

  // ---------------------------------------------------------------- a run that loses a key

  /** 0, 2, 4, ..., 2(n - 1). */
  function Evens(n: nat): (ks: seq<Key>)
    ensures |ks| == n && forall i :: 0 <= i < n ==> ks[i] == 2 * i
  {
    seq(n, i => 2 * i)
  }

  lemma LastBelow(a: seq<Key>, b: seq<Key>)
    requires a != [] && b != [] && Sorted(b) && a[|a| - 1] in multiset(b)
    ensures a[|a| - 1] <= b[|b| - 1]
  {
    var i :| 0 <= i < |b| && b[i] == a[|a| - 1];
  }

  lemma ButLast(a: seq<Key>)
    requires a != []
    ensures multiset(a[..|a| - 1]) == multiset(a) - multiset{a[|a| - 1]}
  {
    assert a == a[..|a| - 1] + [a[|a| - 1]];
  }

  lemma {:induction false} SortedSame(a: seq<Key>, b: seq<Key>)
    requires Sorted(a) && Sorted(b) && multiset(a) == multiset(b)
    ensures a == b
  {
    assert |a| == |multiset(a)| == |multiset(b)| == |b|;
    if a != [] {
      var n := |a| - 1;
      LastBelow(a, b);
      LastBelow(b, a);
      ButLast(a);
      ButLast(b);
      SortedSame(a[..n], b[..n]);
      assert a == a[..n] + [a[n]] && b == b[..n] + [b[n]];
    }
  }

  ghost predicate EvenLeaf(t: Tree, n: nat) { t.Leaf? && t.keys == Evens(n) && |t.refs| == n }

  /** An insert into a leaf with room leaves a single leaf. */
  lemma StillLeaf(t: Tree, n: nat, v: PageReference, t': Tree, h': nat, m: Mode)
    requires EvenLeaf(t, n) && n < m.caps.leaf
    requires Ok(t', h', Inf, Inf, m, true) && m.fill && HasInserted(t, 2 * n, v, m.caps, t')
    ensures EvenLeaf(t', n + 1) && h' == 1
  {
    assert Evens(n + 1) == Evens(n) + [2 * n];
    SeqOnce(Evens(n + 1));
    EvensFound(t, n, v, t', m.caps);
    AllFoundIsLeaf(t', h', m);
    SortedSame(t'.keys, Evens(n + 1));
  }

  lemma EvensFound(t: Tree, n: nat, v: PageReference, t': Tree, caps: Caps)
    requires EvenLeaf(t, n) && n < caps.leaf && HasInserted(t, 2 * n, v, caps, t')
    ensures forall k :: k in Keys(t') ==> Lookup(t', k).Some?
  {
    forall k | k in Keys(t') ensures Lookup(t', k).Some? { EvenFound(t, n, v, caps, k); }
  }

  lemma HasRoom(t: Tree, n: nat, v: PageReference, caps: Caps, k: Key)
    requires EvenLeaf(t, n) && n < caps.leaf
    ensures Updated(t, 2 * n, v, caps, k) == if k == 2 * n then Some(v) else Lookup(t, k)
    ensures n == 0 ==> Lookup(t, k) == None
  {
  }

  lemma EvenFound(t: Tree, n: nat, v: PageReference, caps: Caps, k: Key)
    requires EvenLeaf(t, n) && n < caps.leaf && k in Keys(t) + multiset{2 * n}
    ensures Updated(t, 2 * n, v, caps, k).Some?
  {
    if k != 2 * n {
      assert k in t.keys;
      var i :| 0 <= i < n && t.keys[i] == k;
      LowerBoundIs(t.keys, k, i);
    }
  }

  /** The tree is empty, or one leaf with the first n even keys. */
  ghost predicate HoldsEvens(b: BTree, n: nat)
    reads b, b.space, b.space.pages, b.space.freeMap
  {
    TreeRuns.Counted(b) && if n == 0 then b.Empty() else !b.Empty() && b.height == 1 && EvenLeaf(b.tree, n)
  }

  method StartEvens(b: BTree, v: PageReference)
    requires HoldsEvens(b, 0) && v.IsValid() && Spare(b.space.Live()) > 1
    modifies b, b.space.pages, b.space.freeMap
    ensures HoldsEvens(b, 1) && Spare(b.space.Live()) >= old(Spare(b.space.Live())) - 2
  {
    ghost var m, t := Mode(b.caps, false, true), Leaf(0, [], []);
    var st := b.Insert(0, v, m);
    forall k ensures Lookup(b.tree, k) == Updated(t, 0, v, b.caps, k) {
      assert Lookup(b.tree, k) == b.Value(k);
      HasRoom(t, 0, v, b.caps, k);
    }
    StillLeaf(t, 0, v, b.tree, b.height, m);
  }

  method AppendEven(b: BTree, n: nat, v: PageReference)
    requires HoldsEvens(b, n) && 0 < n < b.caps.leaf && v.IsValid() && Spare(b.space.Live()) > 1
    modifies b, b.space.pages, b.space.freeMap
    ensures HoldsEvens(b, n + 1) && Spare(b.space.Live()) >= old(Spare(b.space.Live())) - 2
  {
    ghost var m := Mode(b.caps, false, true);
    ghost var t := b.tree;
    assert Lookup(t, 2 * n) == None;
    var st := b.Insert(2 * n, v, m);
    forall k ensures Lookup(b.tree, k) == Updated(t, 2 * n, v, b.caps, k) {
      assert Lookup(b.tree, k) == b.Value(k);
    }
    StillLeaf(t, n, v, b.tree, b.height, m);
  }

  /** The position of an odd key among the evens. */
  lemma MiddleOdd(n: nat, c: nat)
    requires 1 <= c <= n
    ensures LowerBound(Evens(n), 2 * c - 1) == c && 2 * c - 1 !in Evens(n) && Sorted(Evens(n))
  {
    LowerBoundIs(Evens(n), 2 * c - 1, c);
  }

  lemma {:induction false} PowerLeast(b: nat, e: nat)
    requires b >= 2
    ensures TreeRuns.Power(b, e) >= e + 1
  {
    if e > 0 {
      PowerLeast(b, e - 1);
      TreeRuns.Monotone(2, b, TreeRuns.Power(b, e - 1));
    }
  }

  lemma HeightBySize(b: BTree)
    requires TreeRuns.Counted(b)
    ensures b.height <= b.size + 1
  {
    if b.height >= 2 {
      var l, p := b.caps.leaf / 2 + 1, TreeRuns.Power(b.caps.inner / 2 + 1, b.height - 2);
      TreeRuns.CountedBound(b);
      PowerLeast(b.caps.inner / 2 + 1, b.height - 2);
      TreeRuns.Monotone(2, l, p);
    }
  }

  method FillLeaf(b: BTree, v: PageReference)
    requires HoldsEvens(b, 0) && v.IsValid() && Spare(b.space.Live()) > 2 * b.caps.leaf
    modifies b, b.space.pages, b.space.freeMap
    ensures HoldsEvens(b, b.caps.leaf) && Spare(b.space.Live()) >= old(Spare(b.space.Live())) - 2 * b.caps.leaf
  {
    ghost var spare := Spare(b.space.Live());
    StartEvens(b, v);
    for n := 1 to b.caps.leaf
      invariant HoldsEvens(b, n) && Spare(b.space.Live()) >= spare - 2 * n
    {
      AppendEven(b, n, v);
    }
  }

  /** The odd key in the middle of a full leaf of even keys. */
  function MiddleKey(caps: Caps): Key { 2 * ((caps.leaf + 1) / 2) - 1 }

  /** The insert reports success, and the key is not found. */
  method InsertMiddle(b: BTree, v: PageReference) returns (st: Status)
    requires HoldsEvens(b, b.caps.leaf) && v.IsValid() && Spare(b.space.Live()) > 1
    modifies b, b.space.pages, b.space.freeMap
    ensures st == Done && TreeRuns.Counted(b)
    ensures b.Value(MiddleKey(b.caps)) == None && MiddleKey(b.caps) in b.KeyBag()
    ensures b.KeyBag() == multiset(Evens(b.caps.leaf)) + multiset{MiddleKey(b.caps)}
    ensures forall k :: b.Value(k).Some? <==> k in Evens(b.caps.leaf)
    ensures b.size == b.caps.leaf + 1 && Spare(b.space.Live()) >= old(Spare(b.space.Live())) - 2
  {
    InsertCanLose(b.tree, v, b.caps);
    forall k ensures Lookup(b.tree, k).Some? <==> k in Evens(b.caps.leaf) { EvenLookup(b.tree, b.caps.leaf, k); }
    ghost var t := b.tree;
    st := b.Insert(MiddleKey(b.caps), v, Mode(b.caps, false, true));
    forall k ensures b.Value(k).Some? <==> k in Evens(b.caps.leaf) { MiddleUpdated(t, v, b.caps, k); }
  }

  lemma EvenLookup(t: Tree, n: nat, k: Key)
    requires EvenLeaf(t, n)
    ensures Lookup(t, k).Some? <==> k in Evens(n)
  {
    if k in Evens(n) {
      var i :| 0 <= i < n && Evens(n)[i] == k;
      LowerBoundIs(t.keys, k, i);
    }
  }

  lemma MiddleUpdated(t: Tree, v: PageReference, caps: Caps, k: Key)
    requires EvenLeaf(t, caps.leaf) && caps.leaf >= 2
    ensures Updated(t, MiddleKey(caps), v, caps, k).Some? <==> k in Evens(caps.leaf)
  {
    InsertCanLose(t, v, caps);
    EvenLookup(t, caps.leaf, k);
    assert MiddleKey(caps) !in Evens(caps.leaf);
  }

  /** For every capacity a full leaf of even keys is in order, and inserting the odd key of the
      middle leaves it out of every leaf. */
  lemma InsertCanLose(t: Tree, v: PageReference, caps: Caps)
    requires EvenLeaf(t, caps.leaf) && caps.leaf >= 2
    ensures Ok(t, 1, Inf, Inf, Mode(caps, true, true), true) && Lookup(t, MiddleKey(caps)) == None
    ensures Updated(t, MiddleKey(caps), v, caps, MiddleKey(caps)) == None
  {
    MiddleOdd(caps.leaf, (caps.leaf + 1) / 2);
    TreeRuns.LostIff(t, MiddleKey(caps), v, caps);
  }

  /** A key in the tree that is not found is accepted again, and the tree then rejected. */
  method InsertAgain(b: BTree, key: Key, v: PageReference) returns (ok: bool, valid: bool)
    requires TreeRuns.Counted(b) && b.Value(key) == None && key in b.KeyBag()
    requires v.IsValid() && Spare(b.space.Live()) > b.size + 1
    modifies b, b.space.pages, b.space.freeMap
    ensures ok && !valid && TreeRuns.Counted(b) && b.KeyBag() == old(b.KeyBag()) + multiset{key}
  {
    HeightBySize(b);
    var st := TreeRuns.InsertOne(b, key, v);
    ok := st == Done;
    valid := Audit(b, Mode(b.caps, false, true));
    assert b.KeyBag()[key] >= 2;
  }

  /** For every capacity: fill a leaf with even keys and insert the odd key that falls in the
      middle.  The insert succeeds and the key is not found; it is accepted a second time,
      and then the validator rejects the tree. */
  method LoseKey(space: SpaceManager, caps: Caps, v: PageReference)
    returns (b: BTree, st: Status, found: Option<PageReference>, again: bool, valid: bool)
    requires space.Valid() && caps.leaf >= 2 && caps.inner >= 2
    requires v.IsValid() && Spare(space.Live()) > 3 * caps.leaf + 4
    modifies space.pages, space.freeMap
    ensures fresh(b) && st == Done && found == None && again && !valid
    ensures TreeRuns.Counted(b) && b.KeyBag() == multiset(Evens(caps.leaf)) + multiset{MiddleKey(caps), MiddleKey(caps)}
  {
    b := new BTree(space, caps);
    FillLeaf(b, v);
    st := InsertMiddle(b, v);
    found := b.Find(MiddleKey(caps), Mode(caps, false, true));
    again, valid := InsertAgain(b, MiddleKey(caps), v);
  }
}
