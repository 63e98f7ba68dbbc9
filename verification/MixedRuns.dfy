/**
  Runs of inserts and erases together, up to the first erase that would be refused or would
  break the order.
 */
module MixedRuns {
  import opened Options
  import opened PageReferences
  import opened Trees
  import opened Stores
  import opened Inserting
  import opened Space
  import opened BTrees
  import opened Deleting
  import opened TreeRuns

  // ---------------------------------------------------------------- foreseeing an erase

  /** Erasing key breaks nothing: it is neither refused nor does it break the order. */
  predicate Clean(t: Tree, key: Key, caps: Caps) { !Refused(t, key, caps) && !Breaks(t, key, caps) }

  /** Child i of the node at up, by its page. */
  lemma KidStored(s: Store, t: Tree, h: nat, m: Mode, up: Path, i: nat)
    requires Good(s, t, h, m) && ValidPath(t, up) && |up| + 1 < h && i < |Sub(t, up).keys| + 1
    ensures var p := Sub(t, up);
            && p.Node? && |p.kids| == |p.keys| + 1 && p.id in s.inners
            && s.inners[p.id].keys == p.keys && |s.inners[p.id].children| == |p.kids|
            && (|up| + 2 == h ==> p.kids[i].Leaf? && s.inners[p.id].children[i] in s.leaves
                                  && s.leaves[s.inners[p.id].children[i]].keys == p.kids[i].keys)
            && (|up| + 2 < h ==> s.inners[p.id].children[i] in s.inners
                                 && s.inners[s.inners[p.id].children[i]].keys == p.kids[i].keys)
  {
    var p := Sub(t, up);
    SubOk(t, h, m, up);
    SubRepresents(s, t, up);
    assert Ok(p.kids[i], h - |up| - 1, LoOf(p.keys, LoAt(t, up), i), HiOf(p.keys, HiAt(t, up), i), m, false);
    assert Represents(s, p.kids[i]);
  }

  /** The keys in the page of child i of the node at up. */
  method KidKeys(b: BTree, page: PageId, i: nat, leaf: bool, ghost up: Path, ghost m: Mode) returns (ks: seq<Key>)
    requires b.Valid(m) && !b.Empty() && ValidPath(b.tree, up) && |up| + 1 < b.height && page == Sub(b.tree, up).id
    requires i <= |Sub(b.tree, up).keys| && (leaf <==> |up| + 2 == b.height)
    ensures Sub(b.tree, up).Node? && i < |Sub(b.tree, up).kids| && ks == Sub(b.tree, up).kids[i].keys
  {
    KidStored(b.Maps(), b.tree, b.height, m, up, i);
    var child := b.inners[page].children[i];
    ks := if leaf then b.leaves[child].keys else b.inners[child].keys;
  }

  method NeighbourHasSpare(b: BTree, page: PageId, i: nat, leaf: bool, n: nat, ghost up: Path, ghost m: Mode)
    returns (left: bool, right: bool)
    requires b.Valid(m) && !b.Empty() && ValidPath(b.tree, up) && |up| + 1 < b.height && page == Sub(b.tree, up).id
    requires i <= |Sub(b.tree, up).keys| && (leaf <==> |up| + 2 == b.height)
    ensures Sub(b.tree, up).Node? && |Sub(b.tree, up).kids| == |Sub(b.tree, up).keys| + 1
    ensures left <==> 0 < i && |Sub(b.tree, up).kids[i - 1].keys| > n
    ensures right <==> i < |Sub(b.tree, up).keys| && |Sub(b.tree, up).kids[i + 1].keys| > n
  {
    KidStored(b.Maps(), b.tree, b.height, m, up, i);
    left, right := false, false;
    if i > 0 {
      var ks := KidKeys(b, page, i - 1, leaf, up, m);
      left := |ks| > n;
    }
    if i < |b.inners[page].keys| {
      var ks := KidKeys(b, page, i + 1, leaf, up, m);
      right := |ks| > n;
    }
  }

  /** The erase of a key in a leaf at its minimum, when a neighbour can lend. */
  method LendsCleanly(b: BTree, path: Path, key: Key, left: bool, ghost m: Mode) returns (ok: bool)
    requires b.Valid(m) && !b.Empty() && path != [] && ValidPath(b.tree, path) && Routes(b.tree, path, key)
    requires Sub(b.tree, path).Leaf? && |path| + 1 == b.height
    requires var p, i := Sub(b.tree, Up(path)), path[|path| - 1].idx;
             && p.Node? && i <= |p.keys| && Borrows(b.tree, key, b.caps)
             && (left <==> 0 < i && |p.kids[i - 1].keys| > b.caps.leaf / 2)
    ensures ok <==> !Breaks(b.tree, key, b.caps)
  {
    var f := path[|path| - 1];
    var j := if left then f.idx - 1 else f.idx;
    ghost var up := Up(path);
    AtLeaf(b.tree, path, key);
    KidStored(b.Maps(), b.tree, b.height, m, up, f.idx);
    var sep := b.inners[f.page].keys[j];
    var ks := KidKeys(b, f.page, j, true, up, m);
    ok := !(sep in ks && !(j == f.idx && sep == key));
  }

  /** The erase of a key in a leaf at its minimum, when no neighbour can lend. */
  method MergesCleanly(b: BTree, path: Path, key: Key, ghost m: Mode) returns (ok: bool)
    requires b.Valid(m) && !b.Empty() && path != [] && ValidPath(b.tree, path) && Routes(b.tree, path, key)
    requires Sub(b.tree, path).Leaf? && |path| + 1 == b.height && |Sub(b.tree, path).keys| <= b.caps.leaf / 2
    requires var p, i := Sub(b.tree, Up(path)), path[|path| - 1].idx;
             p.Node? && i <= |p.keys| && !HasSpare(p.kids, i, b.caps.leaf / 2)
    ensures ok <==> !Refused(b.tree, key, b.caps)
  {
    var f := path[|path| - 1];
    ghost var up := Up(path);
    AtLeaf(b.tree, path, key);
    KidStored(b.Maps(), b.tree, b.height, m, up, f.idx);
    if |path| == 1 { return true; }
    if |b.inners[f.page].keys| > b.caps.inner / 2 { return true; }
    var g := path[|path| - 2];
    SubOk(b.tree, b.height, m, Up(up));
    var left, right := NeighbourHasSpare(b, g.page, g.idx, false, b.caps.inner / 2, Up(up), m);
    ok := left || right;
  }

  /** From the pages alone, before the call: whether an erase will be clean. */
  method ErasesCleanly(b: BTree, key: Key, ghost m: Mode) returns (ok: bool)
    requires b.Valid(m)
    ensures ok <==> b.Value(key).None? || Clean(b.tree, key, b.caps)
  {
    if b.rootId == INVALID_PAGE { return true; }
    var path, leaf := b.DescendToLeaf(key, m);
    SubOk(b.tree, b.height, m, path);
    RouteLookup(b.tree, path, key);
    var n := b.leaves[leaf];
    var i := SearchLowerBound(n.keys, key);
    if i >= |n.keys| || n.keys[i] != key { return true; }
    NoFall(b.tree, path, key, b.caps);
    if path == [] || |n.keys| > b.caps.leaf / 2 { return true; }
    ok := FallsCleanly(b, path, key, m);
  }

  method FallsCleanly(b: BTree, path: Path, key: Key, ghost m: Mode) returns (ok: bool)
    requires b.Valid(m) && !b.Empty() && path != [] && ValidPath(b.tree, path) && Routes(b.tree, path, key)
    requires Sub(b.tree, path).Leaf? && |path| + 1 == b.height && |Sub(b.tree, path).keys| <= b.caps.leaf / 2
    ensures ok <==> Clean(b.tree, key, b.caps)
  {
    AtLeaf(b.tree, path, key);
    var f := path[|path| - 1];
    var left, right := NeighbourHasSpare(b, f.page, f.idx, true, b.caps.leaf / 2, Up(path), m);
    if left || right {
      ok := LendsCleanly(b, path, key, left, m);
    } else {
      ok := MergesCleanly(b, path, key, m);
    }
  }

  // ---------------------------------------------------------------- runs

  datatype Op = Put(key: Key, ref: PageReference) | Del(key: Key)

  /** The keys of the inserts that succeeded. */
  function Inserted(ops: seq<Op>, sts: seq<Status>): multiset<Key>
    requires |sts| <= |ops|
  {
    if sts == [] then multiset{} else
    var n := |sts| - 1;
    Inserted(ops, sts[..n]) + if ops[n].Put? && sts[n] == Done then multiset{ops[n].key} else multiset{}
  }

  /** The keys of the erases that succeeded. */
  function Removed(ops: seq<Op>, sts: seq<Status>): multiset<Key>
    requires |sts| <= |ops|
  {
    if sts == [] then multiset{} else
    var n := |sts| - 1;
    Removed(ops, sts[..n]) + if ops[n].Del? && sts[n] == Done then multiset{ops[n].key} else multiset{}
  }

  /** What an operation does to the map besides what was asked: a key is gone, or a reference
      moves to another key. */
  datatype Loss = Nothing | Gone(key: Key) | Moves(from: Key, to: Key)

  function Asked(m: map<Key, PageReference>, op: Op): map<Key, PageReference> {
    match op
    case Put(k, r) => m[k := r]
    case Del(k) => m - {k}
  }

  function Lossy(m: map<Key, PageReference>, l: Loss): map<Key, PageReference> {
    match l
    case Nothing => m
    case Gone(k) => m - {k}
    case Moves(from, to) => if from in m then (m - {from})[to := m[from]] else m
  }

  /** The map that the successful operations and their losses leave. */
  function Meaning(ops: seq<Op>, sts: seq<Status>, losses: seq<Loss>): map<Key, PageReference>
    requires |losses| == |sts| <= |ops|
  {
    if sts == [] then map[] else
    var n := |sts| - 1;
    var m := Meaning(ops, sts[..n], losses[..n]);
    if sts[n] == Done then Lossy(Asked(m, ops[n]), losses[n]) else m
  }

  /** The reference was supplied by an insert that succeeded. */
  predicate Supplied(ops: seq<Op>, sts: seq<Status>, r: PageReference)
    requires |sts| <= |ops|
  {
    exists i :: 0 <= i < |sts| && ops[i].Put? && sts[i] == Done && ops[i].ref == r
  }

  /** Whatever is lost, a search finds only references that were inserted. */
  lemma {:induction false} MeaningSupplied(ops: seq<Op>, sts: seq<Status>, losses: seq<Loss>, k: Key)
    requires |losses| == |sts| <= |ops| && k in Meaning(ops, sts, losses)
    ensures Supplied(ops, sts, Meaning(ops, sts, losses)[k])
    decreases |sts|
  {
    var n := |sts| - 1;
    var m := Meaning(ops, sts[..n], losses[..n]);
    var x := if sts[n] == Done && losses[n].Moves? && k == losses[n].to && losses[n].from in Asked(m, ops[n])
             then losses[n].from else k;
    if sts[n] == Done && ops[n].Put? && x == ops[n].key {
      assert ops[n].ref == Meaning(ops, sts, losses)[k];
    } else {
      MeaningSupplied(ops, sts[..n], losses[..n], x);
      var i :| 0 <= i < n && ops[i].Put? && sts[..n][i] == Done && ops[i].ref == m[x];
      assert sts[i] == Done;
    }
  }

  /** What the operation loses, from the tree before it. */
  function LossOf(t: Tree, op: Op, caps: Caps): Loss {
    match op
    case Put(k, _) => if Median(t, k, caps).Some? then Gone(Median(t, k, caps).value) else Nothing
    case Del(k) =>
      var p := LeafParent(t, k);
      var i := LowerBound(p.keys, k);
      if !Borrows(t, k, caps) then Nothing else
      var j := PairIndex(p, i, caps.leaf / 2);
      if j >= |p.keys| || j + 1 >= |p.kids| then Nothing else
      var lender := p.kids[if j == i then j + 1 else j].keys;
      if lender == [] then Nothing else Moves(lender[if j == i then 0 else |lender| - 1], p.keys[j])
  }

  /** Every key inserted is in the tree, was erased, or was a separator that a merge dropped; the
      size counts leaf keys, separators and dropped separators. */
  predicate Ledger(bag: multiset<Key>, size: nat, ops: seq<Op>, sts: seq<Status>, dropped: multiset<Key>)
    requires |sts| <= |ops|
  {
    bag + dropped + Removed(ops, sts) == Inserted(ops, sts) && size == |bag| + |dropped|
  }

  function Get(m: map<Key, PageReference>, k: Key): Option<PageReference> { if k in m then Some(m[k]) else None }

  /** Searching the tree, if there is one, is looking up the map. */
  ghost predicate Shows(t: Option<Tree>, m: map<Key, PageReference>) { forall k :: Search(t, k) == Get(m, k) }

  function LossFrom(t: Option<Tree>, op: Op, caps: Caps): Loss {
    if t.None? then Nothing else LossOf(t.value, op, caps)
  }

  /** What an operation answers when m is the map before it. */
  function Answer(m: map<Key, PageReference>, op: Op): Status {
    match op
    case Put(k, r) => if !r.IsValid() then InvalidReference else if k in m then Duplicate else Done
    case Del(k) => if k in m then Done else NotFound
  }

  /** At every step the tree shows the map so far, the answer is the one the map calls for, and
      the losses are those of the tree before it. */
  ghost predicate Explained(trees: seq<Option<Tree>>, ops: seq<Op>, sts: seq<Status>, losses: seq<Loss>, caps: Caps)
    requires |trees| == |losses| == |sts| <= |ops|
  {
    forall i :: 0 <= i < |sts| ==>
      && Shows(trees[i], Meaning(ops, sts[..i], losses[..i]))
      && sts[i] == Answer(Meaning(ops, sts[..i], losses[..i]), ops[i])
      && (sts[i] == Done ==> losses[i] == LossFrom(trees[i], ops[i], caps))
  }

  lemma ExplainedMore(trees: seq<Option<Tree>>, ops: seq<Op>, sts: seq<Status>, losses: seq<Loss>, caps: Caps,
                      t: Option<Tree>, st: Status, l: Loss)
    requires |trees| == |losses| == |sts| < |ops| && Explained(trees, ops, sts, losses, caps)
    requires Shows(t, Meaning(ops, sts, losses)) && (st == Done ==> l == LossFrom(t, ops[|sts|], caps))
    requires st == Answer(Meaning(ops, sts, losses), ops[|sts|])
    ensures Explained(trees + [t], ops, sts + [st], losses + [l], caps)
  {
    forall i | 0 <= i <= |sts|
      ensures Shows((trees + [t])[i], Meaning(ops, (sts + [st])[..i], (losses + [l])[..i]))
      ensures (sts + [st])[i] == Answer(Meaning(ops, (sts + [st])[..i], (losses + [l])[..i]), ops[i])
      ensures (sts + [st])[i] == Done ==> (losses + [l])[i] == LossFrom((trees + [t])[i], ops[i], caps)
    {
      assert (sts + [st])[..i] == sts[..i] && (losses + [l])[..i] == losses[..i];
      if i == |sts| { assert sts[..i] == sts && losses[..i] == losses; }
    }
  }

  /** What holds along a run. */
  ghost predicate Balanced(b: BTree, ops: seq<Op>, sts: seq<Status>, losses: seq<Loss>, dropped: multiset<Key>)
    requires |losses| == |sts| <= |ops|
    reads b, b.space, b.space.pages, b.space.freeMap
  {
    && b.Valid(Mode(b.caps, false, true))
    && Ledger(b.KeyBag(), b.size, ops, sts, dropped)
    && Shows(TreeIn(b), Meaning(ops, sts, losses))
  }

  lemma Appended(ops: seq<Op>, sts: seq<Status>, st: Status)
    requires |sts| < |ops|
    ensures var op := ops[|sts|];
            && Inserted(ops, sts + [st]) ==
               Inserted(ops, sts) + (if op.Put? && st == Done then multiset{op.key} else multiset{})
            && Removed(ops, sts + [st]) ==
               Removed(ops, sts) + (if op.Del? && st == Done then multiset{op.key} else multiset{})
  {
    assert (sts + [st])[..|sts|] == sts;
  }

  lemma MeaningMore(ops: seq<Op>, sts: seq<Status>, losses: seq<Loss>, st: Status, l: Loss)
    requires |losses| == |sts| < |ops|
    ensures var m := Meaning(ops, sts, losses);
            Meaning(ops, sts + [st], losses + [l]) == if st == Done then Lossy(Asked(m, ops[|sts|]), l) else m
  {
    assert (sts + [st])[..|sts|] == sts && (losses + [l])[..|sts|] == losses;
  }

  lemma LedgerPut(bag: multiset<Key>, size: nat, ops: seq<Op>, sts: seq<Status>, dropped: multiset<Key>, st: Status,
                  bag': multiset<Key>, size': nat)
    requires |sts| < |ops| && ops[|sts|].Put? && Ledger(bag, size, ops, sts, dropped)
    requires st == Done ==> bag' == bag + multiset{ops[|sts|].key} && size' == size + 1
    requires st != Done ==> bag' == bag && size' == size
    ensures Ledger(bag', size', ops, sts + [st], dropped)
  {
    Appended(ops, sts, st);
  }

  lemma LedgerDel(bag: multiset<Key>, size: nat, ops: seq<Op>, sts: seq<Status>, dropped: multiset<Key>, st: Status,
                  bag': multiset<Key>, size': nat, drops: multiset<Key>)
    requires |sts| < |ops| && ops[|sts|].Del? && Ledger(bag, size, ops, sts, dropped)
    requires st == Done ==> bag' + drops + multiset{ops[|sts|].key} == bag && size' == Decremented(size)
    requires st != Done ==> bag' == bag && size' == size && drops == multiset{}
    ensures Ledger(bag', size', ops, sts + [st], dropped + drops)
  {
    Appended(ops, sts, st);
  }

  lemma LedgerSize(bag: multiset<Key>, size: nat, ops: seq<Op>, sts: seq<Status>, dropped: multiset<Key>)
    requires |sts| <= |ops| && Ledger(bag, size, ops, sts, dropped)
    ensures size + |Removed(ops, sts)| == |Inserted(ops, sts)|
  {
  }

  lemma ShowsPut(t: Option<Tree>, t': Option<Tree>, m: map<Key, PageReference>, op: Op, caps: Caps, l: Loss)
    requires op.Put? && Shows(t, m) && l == LossFrom(t, op, caps)
    requires forall k :: Search(t', k) == AfterPut(t, op.key, op.ref, caps, k)
    ensures Shows(t', Lossy(Asked(m, op), l))
  {
    forall k ensures Search(t', k) == Get(Lossy(Asked(m, op), l), k) {
      assert Search(t', k) == AfterPut(t, op.key, op.ref, caps, k) && Search(t, k) == Get(m, k);
    }
  }

  lemma ShowsDel(t: Option<Tree>, t': Option<Tree>, m: map<Key, PageReference>, op: Op, e: Effect, l: Loss)
    requires op.Del? && Shows(t, m) && l == if e.Moved? then Moves(e.key, e.sep) else Nothing
    requires forall k :: Search(t', k) == Erased(Search(t, k), op.key, e, k)
    requires !e.Lost? && (e.Moved? ==> e.key != op.key && Search(t, e.key) == Some(e.ref))
    ensures Shows(t', Lossy(Asked(m, op), l))
  {
    if e.Moved? { assert Search(t, e.key) == Get(m, e.key); }
    forall k ensures Search(t', k) == Get(Lossy(Asked(m, op), l), k) {
      assert Search(t', k) == Erased(Search(t, k), op.key, e, k) && Search(t, k) == Get(m, k);
    }
  }

  /** An erase that is clean loses what LossOf says. */
  lemma CleanLoss(t: Tree, k: Key, caps: Caps, st: Status, e: Effect)
    requires Outcome(t, k, caps, st, e) && Clean(t, k, caps)
    ensures LossOf(t, Del(k), caps) == if e.Moved? then Moves(e.key, e.sep) else Nothing
  {
  }

  /** An insert: what it does to map, keys and size. */
  method InsertPlain(b: BTree, op: Op, ghost m: map<Key, PageReference>) returns (st: Status, ghost l: Loss)
    requires op.Put? && b.Valid(Mode(b.caps, false, true)) && Shows(TreeIn(b), m) && Spare(b.space.Live()) > b.height
    modifies b, b.space.pages, b.space.freeMap
    ensures b.Valid(Mode(b.caps, false, true)) && b.Foreign() == old(b.Foreign())
    ensures st == Answer(m, op) && l == LossFrom(old(TreeIn(b)), op, b.caps)
    ensures st == Done ==> b.KeyBag() == old(b.KeyBag()) + multiset{op.key} && b.size == old(b.size) + 1
    ensures st != Done ==> b.KeyBag() == old(b.KeyBag()) && b.size == old(b.size)
    ensures Shows(TreeIn(b), if st == Done then Lossy(Asked(m, op), l) else m)
  {
    ghost var t := TreeIn(b);
    l := LossFrom(t, op, b.caps);
    assert Search(t, op.key) == Get(m, op.key);
    st := InsertOne(b, op.key, op.ref);
    if st == Done { ShowsPut(t, TreeIn(b), m, op, b.caps, l); }
  }

  method PutNext(b: BTree, ops: seq<Op>, sts: seq<Status>, ghost losses: seq<Loss>, ghost dropped: multiset<Key>)
    returns (st: Status, ghost l: Loss)
    requires |losses| == |sts| < |ops| && ops[|sts|].Put? && Balanced(b, ops, sts, losses, dropped)
    requires Spare(b.space.Live()) > b.height
    modifies b, b.space.pages, b.space.freeMap
    ensures Balanced(b, ops, sts + [st], losses + [l], dropped) && b.Foreign() == old(b.Foreign())
    ensures st == Answer(Meaning(ops, sts, losses), ops[|sts|])
    ensures l == LossFrom(old(TreeIn(b)), ops[|sts|], b.caps)
  {
    ghost var bag, size := b.KeyBag(), b.size;
    st, l := InsertPlain(b, ops[|sts|], Meaning(ops, sts, losses));
    LedgerPut(bag, size, ops, sts, dropped, st, b.KeyBag(), b.size);
    MeaningMore(ops, sts, losses, st, l);
  }

  method EraseShowing(b: BTree, key: Key) returns (st: Status, ghost e: Effect, ghost drops: multiset<Key>)
    requires b.Valid(Mode(b.caps, false, true)) && (b.Value(key).None? || Clean(b.tree, key, b.caps))
    modifies b, b.space.pages, b.space.freeMap
    ensures b.Valid(Mode(b.caps, false, true)) && (st == Done || st == NotFound)
    ensures st == Done <==> old(b.Value(key)).Some?
    ensures st == Done ==> Outcome(old(b.tree), key, b.caps, st, e) && b.size == Decremented(old(b.size))
    ensures b.KeyBag() + drops + (if st == Done then multiset{key} else multiset{}) == old(b.KeyBag())
    ensures st != Done ==> b.size == old(b.size) && drops == multiset{}
    ensures forall k :: Search(TreeIn(b), k) ==
                        if st == Done then Erased(Search(old(TreeIn(b)), k), key, e, k) else Search(old(TreeIn(b)), k)
    ensures st == Done ==> !e.Lost? && (e.Moved? ==> e.key != key && Search(old(TreeIn(b)), e.key) == Some(e.ref))
    ensures b.Foreign() == old(b.Foreign())
  {
    ghost var t := TreeIn(b);
    drops := EraseDrops(b.tree, key, b.caps);
    st, e := Erase(b, key, Mode(b.caps, false, true));
    if st == NotFound { drops := multiset{}; }
    forall k ensures Search(TreeIn(b), k) ==
                     if st == Done then Erased(Search(t, k), key, e, k) else Search(t, k) {
      assert Search(TreeIn(b), k) == b.Value(k) && Search(t, k) == old(b.Value(k));
    }
  }

  /** A clean erase: what it does to map, keys and size. */
  method EraseClean(b: BTree, op: Op, ghost m: map<Key, PageReference>)
    returns (st: Status, ghost l: Loss, ghost drops: multiset<Key>)
    requires op.Del? && b.Valid(Mode(b.caps, false, true)) && Shows(TreeIn(b), m)
    requires b.Value(op.key).None? || Clean(b.tree, op.key, b.caps)
    modifies b, b.space.pages, b.space.freeMap
    ensures b.Valid(Mode(b.caps, false, true)) && (st == Done || st == NotFound)
    ensures st == Answer(m, op)
    ensures st == Done ==> l == LossFrom(old(TreeIn(b)), op, b.caps) && b.size == Decremented(old(b.size))
    ensures st == Done ==> b.KeyBag() + drops + multiset{op.key} == old(b.KeyBag())
    ensures st != Done ==> b.KeyBag() == old(b.KeyBag()) && b.size == old(b.size) && drops == multiset{}
    ensures Shows(TreeIn(b), if st == Done then Lossy(Asked(m, op), l) else m)
    ensures b.Foreign() == old(b.Foreign())
  {
    ghost var t, e := TreeIn(b), Exact;
    assert Search(t, op.key) == Get(m, op.key);
    st, e, drops := EraseShowing(b, op.key);
    l := if e.Moved? then Moves(e.key, e.sep) else Nothing;
    if st == Done {
      CleanLoss(t.value, op.key, b.caps, st, e);
      ShowsDel(t, TreeIn(b), m, op, e, l);
    }
  }

  method DelNext(b: BTree, ops: seq<Op>, sts: seq<Status>, ghost losses: seq<Loss>, ghost before: multiset<Key>)
    returns (st: Status, ghost l: Loss, ghost dropped: multiset<Key>)
    requires |losses| == |sts| < |ops| && ops[|sts|].Del? && Balanced(b, ops, sts, losses, before)
    requires b.Value(ops[|sts|].key).None? || Clean(b.tree, ops[|sts|].key, b.caps)
    modifies b, b.space.pages, b.space.freeMap
    ensures Balanced(b, ops, sts + [st], losses + [l], dropped)
    ensures st == Done ==> l == LossFrom(old(TreeIn(b)), ops[|sts|], b.caps)
    ensures st == Answer(Meaning(ops, sts, losses), ops[|sts|])
    ensures b.Foreign() == old(b.Foreign())
  {
    ghost var bag, size, drops := b.KeyBag(), b.size, multiset{};
    st, l, drops := EraseClean(b, ops[|sts|], Meaning(ops, sts, losses));
    dropped := before + drops;
    LedgerDel(bag, size, ops, sts, before, st, b.KeyBag(), b.size, drops);
    MeaningMore(ops, sts, losses, st, l);
  }

  /** The next operation, unless it is an insert without pages or an erase that is not clean. */
  method Next(b: BTree, ops: seq<Op>, sts: seq<Status>, ghost losses: seq<Loss>, ghost before: multiset<Key>)
    returns (ok: bool, st: Status, ghost l: Loss, ghost dropped: multiset<Key>)
    requires |losses| == |sts| < |ops| && Balanced(b, ops, sts, losses, before)
    modifies b, b.space.pages, b.space.freeMap
    ensures ok ==> Balanced(b, ops, sts + [st], losses + [l], dropped)
    ensures ok ==> st == Answer(Meaning(ops, sts, losses), ops[|sts|])
    ensures ok && st == Done ==> l == LossFrom(old(TreeIn(b)), ops[|sts|], b.caps)
    ensures !ok ==> dropped == before && Balanced(b, ops, sts, losses, before) && Stops(b, ops[|sts|])
    ensures b.Foreign() == old(b.Foreign())
  {
    ok, st, l, dropped := true, Done, Nothing, before;
    match ops[|sts|] {
      case Put(_, _) =>
        ok := EnoughPages(b);
        if ok { st, l := PutNext(b, ops, sts, losses, before); }
      case Del(k) =>
        ok := ErasesCleanly(b, k, Mode(b.caps, false, true));
        if ok { st, l, dropped := DelNext(b, ops, sts, losses, before); }
    }
  }

  /** Where a run is followed no further. */
  ghost predicate Stops(b: BTree, op: Op)
    reads b, b.space, b.space.pages
  {
    match op
    case Put(_, _) => Spare(b.space.Live()) <= b.height
    case Del(k) => b.Value(k).Some? && (Refused(b.tree, k, b.caps) || Breaks(b.tree, k, b.caps))
  }

  lemma SizeBound(b: BTree, ops: seq<Op>, sts: seq<Status>, losses: seq<Loss>, dropped: multiset<Key>)
    requires |losses| == |sts| <= |ops| && Balanced(b, ops, sts, losses, dropped)
    ensures b.size + |Removed(ops, sts)| == |Inserted(ops, sts)|
    ensures b.height >= 2 ==>
              b.size + 1 >= 2 * ((b.caps.leaf / 2 + 1) * Power(b.caps.inner / 2 + 1, b.height - 2))
  {
    LedgerSize(b.KeyBag(), b.size, ops, sts, dropped);
    if b.height >= 2 { TreeKeys(b.tree, b.height, Mode(b.caps, false, true)); }
  }

  /** Every run of inserts and erases on a new tree, up to the first erase that would be refused
      or break the order, and as long as pages last. */
  method RunAll(space: SpaceManager, caps: Caps, ops: seq<Op>)
    returns (b: BTree, sts: seq<Status>, ghost losses: seq<Loss>, ghost dropped: multiset<Key>,
             ghost trees: seq<Option<Tree>>)
    requires space.Valid() && caps.leaf >= 2 && caps.inner >= 2
    modifies space.pages, space.freeMap
    ensures fresh(b) && b.space == space && b.caps == caps && |trees| == |losses| == |sts| <= |ops|
    ensures Balanced(b, ops, sts, losses, dropped) && Explained(trees, ops, sts, losses, caps)
    ensures b.size + |Removed(ops, sts)| == |Inserted(ops, sts)|
    ensures b.height >= 2 ==>
              b.size + 1 >= 2 * ((b.caps.leaf / 2 + 1) * Power(b.caps.inner / 2 + 1, b.height - 2))
    ensures |sts| < |ops| ==> Stops(b, ops[|sts|])
    ensures b.Foreign() == old(space.Live())
  {
    b := new BTree(space, caps);
    sts, losses, dropped, trees := RunInto(b, ops);
    SizeBound(b, ops, sts, losses, dropped);
  }

  method RunInto(b: BTree, ops: seq<Op>)
    returns (sts: seq<Status>, ghost losses: seq<Loss>, ghost dropped: multiset<Key>, ghost trees: seq<Option<Tree>>)
    requires Balanced(b, ops, [], [], multiset{})
    modifies b, b.space.pages, b.space.freeMap
    ensures |trees| == |losses| == |sts| <= |ops| && Balanced(b, ops, sts, losses, dropped)
    ensures Explained(trees, ops, sts, losses, b.caps)
    ensures |sts| < |ops| ==> Stops(b, ops[|sts|])
    ensures b.Foreign() == old(b.Foreign())
  {
    sts, losses, dropped, trees := [], [], multiset{}, [];
    while |sts| < |ops|
      invariant |trees| == |losses| == |sts| <= |ops| && Balanced(b, ops, sts, losses, dropped)
      invariant Explained(trees, ops, sts, losses, b.caps) && b.Foreign() == old(b.Foreign())
    {
      var ok, st;
      ghost var l, t := Nothing, TreeIn(b);
      ok, st, l, dropped := Next(b, ops, sts, losses, dropped);
      if !ok { break; }
      ExplainedMore(trees, ops, sts, losses, b.caps, t, st, l);
      sts, losses, trees := sts + [st], losses + [l], trees + [t];
    }
  }
}
