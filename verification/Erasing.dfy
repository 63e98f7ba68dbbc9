/**
  Repairing a node that has become one key short: borrowing from a neighbour, merging with
  one, and what each does to searches.
 */
module Erasing {
  import opened Options
  import opened PageReferences
  import opened Trees
  import opened Stores
  import opened Rebalancing
  import opened Inserting

  function NoFill(m: Mode): Mode { m.(fill := false) }

  lemma {:induction false} Unfill(t: Tree, h: nat, lo: Bound, hi: Bound, m: Mode, root: bool)
    requires Ok(t, h, lo, hi, m, root)
    ensures Ok(t, h, lo, hi, NoFill(m), root)
  {
    if t.Node? {
      forall i | 0 <= i < |t.kids|
        ensures Ok(t.kids[i], h - 1, LoOf(t.keys, lo, i), HiOf(t.keys, hi, i), NoFill(m), false)
      {
        Unfill(t.kids[i], h - 1, LoOf(t.keys, lo, i), HiOf(t.keys, hi, i), m, false);
      }
    }
  }

  /** What a search finds in two neighbours with separator sep. */
  function PairLookup(u: Tree, sep: Key, w: Tree, k: Key): Option<PageReference> {
    if k <= sep then Lookup(u, k) else Lookup(w, k)
  }

  /** Two neighbouring leaves in order: u in (lo, sep], w in (sep, hi]. */
  predicate LeafPair(u: Tree, sep: Key, w: Tree, lo: Bound, hi: Bound, strict: bool) {
    && u.Leaf? && w.Leaf? && |u.keys| == |u.refs| && |w.keys| == |w.refs|
    && Sorted(u.keys) && Sorted(w.keys)
    && Within(u.keys, lo, At(sep), strict) && Within(w.keys, At(sep), hi, strict)
    && Above(lo, sep) && Below(sep, hi, true)
  }

  // ---------------------------------------------------------------- leaf merge

  function Merged(u: Tree, w: Tree): Tree
    requires u.Leaf? && w.Leaf?
  {
    Leaf(u.id, u.keys + w.keys, u.refs + w.refs)
  }

  lemma MergedSorted(u: Tree, sep: Key, w: Tree, lo: Bound, hi: Bound, strict: bool)
    requires LeafPair(u, sep, w, lo, hi, strict)
    ensures Sorted(u.keys + w.keys) && Within(u.keys + w.keys, lo, hi, strict)
  {
    var ks := u.keys + w.keys;
    forall i, j | 0 <= i < j < |ks| ensures ks[i] < ks[j] {
      if i < |u.keys| <= j { assert u.keys[i] <= sep < w.keys[j - |u.keys|]; }
    }
    forall i | 0 <= i < |ks| ensures Above(lo, ks[i]) && Below(ks[i], hi, strict) {
      if i < |u.keys| { assert u.keys[i] <= sep; } else { assert sep < w.keys[i - |u.keys|]; }
    }
  }

  /** Merging two leaves changes no search. */
  lemma MergedLookup(u: Tree, sep: Key, w: Tree, lo: Bound, hi: Bound, strict: bool, k: Key)
    requires LeafPair(u, sep, w, lo, hi, strict)
    ensures Lookup(Merged(u, w), k) == PairLookup(u, sep, w, k)
  {
    MergedSorted(u, sep, w, lo, hi, strict);
    LeafConcatLookup(u.id, u.keys, u.refs, w.keys, w.refs, k);
    if k <= sep && k !in u.keys {
      Missing(w, k);
      Missing(u, k);
    } else if k > sep {
      assert k !in u.keys;
      assert Lookup(Leaf(u.id, w.keys, w.refs), k) == Lookup(w, k);
    }
  }

  lemma Missing(x: Tree, k: Key)
    requires x.Leaf? && k !in x.keys
    ensures Lookup(x, k) == None && forall id :: Lookup(Leaf(id, x.keys, x.refs), k) == None
  {
  }

  // ---------------------------------------------------------------- leaf borrow

  /** u's last entry is split: its key becomes the separator, its reference goes to w beside
      the old separator. */
  function LentLeft(u: Tree): Tree
    requires u.Leaf? && |u.keys| == |u.refs| > 0
  {
    Leaf(u.id, u.keys[..|u.keys| - 1], u.refs[..|u.keys| - 1])
  }

  function GotLeft(u: Tree, sep: Key, w: Tree): Tree
    requires u.Leaf? && w.Leaf? && |u.keys| == |u.refs| > 0
  {
    Leaf(w.id, [sep] + w.keys, [u.refs[|u.keys| - 1]] + w.refs)
  }

  function GotRight(u: Tree, sep: Key, w: Tree): Tree
    requires u.Leaf? && w.Leaf? && |w.keys| == |w.refs| > 0
  {
    Leaf(u.id, u.keys + [sep], u.refs + [w.refs[0]])
  }

  function LentRight(w: Tree): Tree
    requires w.Leaf? && |w.keys| == |w.refs| > 0
  {
    Leaf(w.id, w.keys[1..], w.refs[1..])
  }

  /** The pair after a borrow: sep' was a key of the pair and is found no more, and the old
      separator is found with the reference that belonged to sep'. */
  ghost predicate Borrowed(u: Tree, sep: Key, w: Tree, u': Tree, sep': Key, w': Tree, r: PageReference) {
    && sep' != sep && PairLookup(u, sep, w, sep') == Some(r)
    && forall k :: PairLookup(u', sep', w', k) ==
                   if k == sep then Some(r) else if k == sep' then None else PairLookup(u, sep, w, k)
  }

  /** The pair after a borrow that breaks the order: one key is found no more. */
  ghost predicate Dropped(u: Tree, sep: Key, w: Tree, u': Tree, sep': Key, w': Tree, lost: Key) {
    && PairLookup(u, sep, w, lost).Some?
    && forall k :: PairLookup(u', sep', w', k) == if k == lost then None else PairLookup(u, sep, w, k)
  }

  /** Borrowing from the left, for every pair: unless the left leaf holds the separator the
      order survives and one reference is misplaced; if it does, the separator is lost. */
  lemma BorrowLeftEffect(u: Tree, sep: Key, w: Tree, lo: Bound, hi: Bound, strict: bool)
    requires LeafPair(u, sep, w, lo, hi, strict) && |u.keys| > 0
    ensures var n := |u.keys| - 1;
            var (a, s, b) := (LentLeft(u), u.keys[n], GotLeft(u, sep, w));
            && (sep !in u.keys ==> LeafPair(a, s, b, lo, hi, strict) && Borrowed(u, sep, w, a, s, b, u.refs[n]))
            && (sep in u.keys ==> s == sep && !LeafPair(a, s, b, lo, hi, false) && Dropped(u, sep, w, a, s, b, sep))
  {
    var n := |u.keys| - 1;
    var (a, s, b) := (LentLeft(u), u.keys[n], GotLeft(u, sep, w));
    LastOrIn(u, sep, lo, strict);
    Loose(u, sep, w, lo, hi, strict);
    BorrowLeftOrder(u, sep, w, lo, hi);
    LeafLookup(u.id, u.keys, u.refs, n);
    if sep !in u.keys { BorrowLeftPair(u, sep, w, lo, hi, strict); }
    forall k ensures PairLookup(a, s, b, k) ==
                     if k == sep then (if s == sep then None else Some(u.refs[n]))
                     else if k == s then None else PairLookup(u, sep, w, k) {
      PrefixLookup(u, k);
      FrontLookup(u, sep, w, hi, strict, k);
    }
  }

  /** The separator is in the left leaf only as its last key. */
  lemma LastOrIn(u: Tree, sep: Key, lo: Bound, strict: bool)
    requires u.Leaf? && Sorted(u.keys) && Within(u.keys, lo, At(sep), strict) && |u.keys| > 0
    ensures u.keys[|u.keys| - 1] == sep <==> sep in u.keys
  {
  }

  lemma Loose(u: Tree, sep: Key, w: Tree, lo: Bound, hi: Bound, strict: bool)
    requires LeafPair(u, sep, w, lo, hi, strict)
    ensures LeafPair(u, sep, w, lo, hi, false)
  {
  }

  lemma BorrowLeftPair(u: Tree, sep: Key, w: Tree, lo: Bound, hi: Bound, strict: bool)
    requires LeafPair(u, sep, w, lo, hi, strict) && |u.keys| > 0 && sep !in u.keys
    ensures LeafPair(LentLeft(u), u.keys[|u.keys| - 1], GotLeft(u, sep, w), lo, hi, strict)
  {
    var n, b := |u.keys| - 1, GotLeft(u, sep, w);
    assert u.keys[n] < sep;
    forall i | 0 <= i < |b.keys| ensures Above(At(u.keys[n]), b.keys[i]) && Below(b.keys[i], hi, strict) {
      assert i > 0 ==> b.keys[i] == w.keys[i - 1];
    }
  }

  lemma PrefixLookup(u: Tree, k: Key)
    requires u.Leaf? && |u.keys| == |u.refs| > 0 && Sorted(u.keys)
    ensures Lookup(LentLeft(u), k) == if k == u.keys[|u.keys| - 1] then None else Lookup(u, k)
  {
    var n := |u.keys| - 1;
    assert RemoveAt(u.keys, n) == u.keys[..n] && RemoveAt(u.refs, n) == u.refs[..n];
    LeafRemoveLookup(u.id, u.keys, u.refs, n, k);
  }

  lemma FrontLookup(u: Tree, sep: Key, w: Tree, hi: Bound, strict: bool, k: Key)
    requires u.Leaf? && |u.keys| == |u.refs| > 0
    requires w.Leaf? && |w.keys| == |w.refs| && Sorted(w.keys) && Within(w.keys, At(sep), hi, strict)
    ensures Lookup(GotLeft(u, sep, w), k) == if k == sep then Some(u.refs[|u.keys| - 1]) else Lookup(w, k)
  {
    LowerBoundIs(w.keys, sep, 0);
    assert InsertAt(w.keys, 0, sep) == [sep] + w.keys;
    assert InsertAt(w.refs, 0, u.refs[|u.keys| - 1]) == [u.refs[|u.keys| - 1]] + w.refs;
    LeafInsertLookup(w.id, w.keys, w.refs, sep, u.refs[|u.keys| - 1], k);
  }

  /** Borrowing from the right, for every pair: unless the left leaf holds the separator the
      order survives and one reference is misplaced; if it does, the lent key is lost. */
  lemma BorrowRightEffect(u: Tree, sep: Key, w: Tree, lo: Bound, hi: Bound, strict: bool)
    requires LeafPair(u, sep, w, lo, hi, strict) && |w.keys| > 1
    ensures var (a, s, b) := (GotRight(u, sep, w), w.keys[0], LentRight(w));
            && (sep !in u.keys ==> LeafPair(a, s, b, lo, hi, strict) && Borrowed(u, sep, w, a, s, b, w.refs[0]))
            && (sep in u.keys ==> !LeafPair(a, s, b, lo, hi, false) && Dropped(u, sep, w, a, s, b, s))
  {
    var (a, s, b) := (GotRight(u, sep, w), w.keys[0], LentRight(w));
    Loose(u, sep, w, lo, hi, strict);
    BorrowRightOrder(u, sep, w, lo, hi);
    LeafLookup(w.id, w.keys, w.refs, 0);
    if sep !in u.keys { BorrowRightPair(u, sep, w, lo, hi, strict); }
    forall k ensures PairLookup(a, s, b, k) ==
                     if k == sep && sep !in u.keys then Some(w.refs[0])
                     else if k == s then None else PairLookup(u, sep, w, k) {
      BackLookup(u, sep, w, lo, strict, k);
      SuffixLookup(w, k);
      if sep < k <= s { Missing(u, k); FirstAbove(w, k); }
    }
  }

  lemma BorrowRightPair(u: Tree, sep: Key, w: Tree, lo: Bound, hi: Bound, strict: bool)
    requires LeafPair(u, sep, w, lo, hi, strict) && |w.keys| > 1 && sep !in u.keys
    ensures LeafPair(GotRight(u, sep, w), w.keys[0], LentRight(w), lo, hi, strict)
  {
    assert forall i :: 0 <= i < |u.keys| ==> u.keys[i] < sep;
    assert w.keys[0] < w.keys[1];
  }

  lemma FirstAbove(w: Tree, k: Key)
    requires w.Leaf? && |w.keys| == |w.refs| > 0 && Sorted(w.keys) && k <= w.keys[0]
    ensures Lookup(w, k) == if k == w.keys[0] then Some(w.refs[0]) else None
  {
    LowerBoundIs(w.keys, k, 0);
  }

  lemma SuffixLookup(w: Tree, k: Key)
    requires w.Leaf? && |w.keys| == |w.refs| > 0 && Sorted(w.keys)
    ensures Lookup(LentRight(w), k) == if k == w.keys[0] then None else Lookup(w, k)
  {
    assert RemoveAt(w.keys, 0) == w.keys[1..] && RemoveAt(w.refs, 0) == w.refs[1..];
    LeafRemoveLookup(w.id, w.keys, w.refs, 0, k);
  }

  /** When the leaf already ends in the separator, the second copy is never reached. */
  lemma BackLookup(u: Tree, sep: Key, w: Tree, lo: Bound, strict: bool, k: Key)
    requires w.Leaf? && |w.keys| == |w.refs| > 0
    requires u.Leaf? && |u.keys| == |u.refs| && Sorted(u.keys) && Within(u.keys, lo, At(sep), strict)
    ensures Lookup(GotRight(u, sep, w), k) == if k == sep && sep !in u.keys then Some(w.refs[0]) else Lookup(u, k)
  {
    var n, ks := |u.keys|, u.keys + [sep];
    var i := LowerBound(u.keys, k);
    FirstNotBelow(ks, k, if i < n then i else if k <= sep then n else n + 1);
    if sep in u.keys { LastOrIn(u, sep, lo, strict); }
  }

  /** The lower bound in a run that need not be strictly sorted. */
  lemma {:induction false} FirstNotBelow(ks: seq<Key>, k: Key, i: nat)
    requires i <= |ks| && (forall j :: 0 <= j < i ==> ks[j] < k) && (i < |ks| ==> k <= ks[i])
    ensures LowerBound(ks, k) == i
  {
  }

  /** When the left leaf holds its own upper separator, borrowing from it breaks the order:
      the key lands in the right leaf, whose lower bound it is, and is not found there. */
  lemma BorrowLeftOrder(u: Tree, sep: Key, w: Tree, lo: Bound, hi: Bound)
    requires LeafPair(u, sep, w, lo, hi, false) && |u.keys| > 0
    ensures var n := |u.keys| - 1;
            LeafPair(LentLeft(u), u.keys[n], GotLeft(u, sep, w), lo, hi, false) <==> u.keys[n] != sep
  {
    var n := |u.keys| - 1;
    assert GotLeft(u, sep, w).keys[0] == sep;
    if u.keys[n] != sep {
      var b := GotLeft(u, sep, w);
      forall i | 0 <= i < |b.keys| ensures Above(At(u.keys[n]), b.keys[i]) && Below(b.keys[i], hi, false) {
        assert i > 0 ==> b.keys[i] == w.keys[i - 1];
      }
    }
  }

  lemma BorrowRightOrder(u: Tree, sep: Key, w: Tree, lo: Bound, hi: Bound)
    requires LeafPair(u, sep, w, lo, hi, false) && |w.keys| > 1
    ensures LeafPair(GotRight(u, sep, w), w.keys[0], LentRight(w), lo, hi, false) <==> sep !in u.keys
  {
    var a := GotRight(u, sep, w);
    var n := |u.keys|;
    assert a.keys[n] == sep;
    if sep in u.keys {
      var i :| 0 <= i < n && u.keys[i] == sep;
      assert a.keys[i] == a.keys[n];
    } else {
      assert forall i :: 0 <= i < n ==> u.keys[i] < sep;
      assert w.keys[0] < w.keys[1];
    }
  }

  // ---------------------------------------------------------------- inner rotations

  /** The child a search is sent to. */
  function Step(n: Tree, k: Key): Tree
    requires n.Node? && |n.kids| == |n.keys| + 1
  {
    n.kids[LowerBound(n.keys, k)]
  }

  lemma CutStep(ks: seq<Key>, kids: seq<Tree>, i: nat, a: PageId, b: PageId, k: Key)
    requires |kids| == |ks| + 1 && i < |ks| && Sorted(ks)
    ensures kids[LowerBound(ks, k)] ==
            if k <= ks[i] then Step(Node(a, ks[..i], kids[..i + 1]), k)
            else Step(Node(b, ks[i + 1..], kids[i + 1..]), k)
  {
    if k <= ks[i] { StepLeft(ks, kids, i, a, k); } else { StepRight(ks, kids, i, b, k); }
  }

  lemma StepLeft(ks: seq<Key>, kids: seq<Tree>, i: nat, id: PageId, k: Key)
    requires |kids| == |ks| + 1 && i < |ks| && Sorted(ks) && k <= ks[i]
    ensures Step(Node(id, ks[..i], kids[..i + 1]), k) == kids[LowerBound(ks, k)]
  {
    LowerBoundIs(ks[..i], k, LowerBound(ks, k));
  }

  lemma StepRight(ks: seq<Key>, kids: seq<Tree>, i: nat, id: PageId, k: Key)
    requires |kids| == |ks| + 1 && i < |ks| && Sorted(ks) && ks[i] < k
    ensures Step(Node(id, ks[i + 1..], kids[i + 1..]), k) == kids[LowerBound(ks, k)]
  {
    LowerBoundIs(ks[i + 1..], k, LowerBound(ks, k) - (i + 1));
  }

  /** The keys and children of two neighbouring nodes and the separator between them. */
  function RunKeys(u: Tree, sep: Key, w: Tree): seq<Key> { u.keys + [sep] + w.keys }

  function RunKids(u: Tree, w: Tree): seq<Tree>
    requires u.Node? && w.Node?
  {
    u.kids + w.kids
  }

  /** The pair obtained by cutting that run at key i. */
  function CutLeft(u: Tree, sep: Key, w: Tree, i: nat): Tree
    requires u.Node? && w.Node? && i < |RunKeys(u, sep, w)| && i < |RunKids(u, w)|
  {
    Node(u.id, RunKeys(u, sep, w)[..i], RunKids(u, w)[..i + 1])
  }

  function CutRight(u: Tree, sep: Key, w: Tree, i: nat): Tree
    requires u.Node? && w.Node? && i < |RunKeys(u, sep, w)| && i < |RunKids(u, w)|
  {
    Node(w.id, RunKeys(u, sep, w)[i + 1..], RunKids(u, w)[i + 1..])
  }

  /** Wherever the run is cut, every search is sent to the very same child. */
  lemma CutRoutes(u: Tree, sep: Key, w: Tree, i: nat, k: Key)
    requires u.Node? && w.Node? && |u.kids| == |u.keys| + 1 && |w.kids| == |w.keys| + 1
    requires Sorted(RunKeys(u, sep, w)) && i < |RunKeys(u, sep, w)|
    ensures (if k <= RunKeys(u, sep, w)[i] then Step(CutLeft(u, sep, w, i), k) else Step(CutRight(u, sep, w, i), k)) ==
            (if k <= sep then Step(u, k) else Step(w, k))
  {
    var ks, kids, n := RunKeys(u, sep, w), RunKids(u, w), |u.keys|;
    CutStep(ks, kids, i, u.id, w.id, k);
    CutStep(ks, kids, n, u.id, w.id, k);
    assert ks[..n] == u.keys && kids[..n + 1] == u.kids && ks[n] == sep;
    assert ks[n + 1..] == w.keys && kids[n + 1..] == w.kids;
  }

  /** A node whose children are inner nodes. */
  predicate TwoLevels(p: Tree) {
    && p.Node? && |p.kids| == |p.keys| + 1 && Sorted(p.keys)
    && forall i :: 0 <= i < |p.kids| ==> p.kids[i].Node? && |p.kids[i].kids| == |p.kids[i].keys| + 1
  }

  /** The page two steps down the descent for k. */
  function Grandchild(p: Tree, k: Key): Tree
    requires TwoLevels(p)
  {
    Step(Step(p, k), k)
  }

  /** A rotation through the parent: for every key, two steps of the descent end in the same
      page as before. */
  lemma RotationRoutes(q: Tree, j: nat, i: nat, k: Key)
    requires TwoLevels(q) && j < |q.keys|
    requires var u, sep, w := q.kids[j], q.keys[j], q.kids[j + 1];
             && Sorted(RunKeys(u, sep, w)) && i < |RunKeys(u, sep, w)|
             && Sorted(q.keys[j := RunKeys(u, sep, w)[i]])
    ensures var u, sep, w := q.kids[j], q.keys[j], q.kids[j + 1];
            var q' := Rotated(q, j, CutLeft(u, sep, w, i), RunKeys(u, sep, w)[i], CutRight(u, sep, w, i));
            TwoLevels(q') && Grandchild(q', k) == Grandchild(q, k)
  {
    var u, sep, w := q.kids[j], q.keys[j], q.kids[j + 1];
    LowerBoundUpdate(q.keys, j, RunKeys(u, sep, w)[i], k);
    CutRoutes(u, sep, w, i, k);
  }

  /** The parent p after its child i was cut at key c: the key moves up between the halves. */
  function Parted(p: Tree, i: nat, c: nat, id: PageId): Tree
    requires TwoLevels(p) && i < |p.kids| && c < |p.kids[i].keys|
  {
    var e := p.kids[i];
    var l, r := Node(e.id, e.keys[..c], e.kids[..c + 1]), Node(id, e.keys[c + 1..], e.kids[c + 1..]);
    Node(p.id, InsertAt(p.keys, i, e.keys[c]), InsertAt(p.kids[i := l], i + 1, r))
  }

  /** A split through the parent: for every key, two steps of the descent end in the same page
      as before. */
  lemma SplitRoutes(p: Tree, i: nat, c: nat, id: PageId, k: Key)
    requires TwoLevels(p) && i < |p.kids| && c < |p.kids[i].keys| && Sorted(p.kids[i].keys)
    requires Sorted(InsertAt(p.keys, i, p.kids[i].keys[c]))
    ensures TwoLevels(Parted(p, i, c, id)) && Grandchild(Parted(p, i, c, id), k) == Grandchild(p, k)
  {
    var e, b := p.kids[i], LowerBound(p.keys, k);
    PartedLevels(p, i, c, id);
    PartedStep(p, i, c, id, k);
    if b == i { CutStep(e.keys, e.kids, c, e.id, id, k); }
  }

  /** The parent after its child e, over-full, was split and the right half attached, as an insert
      does it: for every key, two steps of the descent end in the same page as before. */
  lemma InnerSplitRoutes(p: Tree, i: nat, id: PageId, k: Key)
    requires TwoLevels(p) && i < |p.kids| && Sorted(p.kids[i].keys) && |p.kids[i].keys| > 0
    requires Sorted(InsertAt(p.keys, i, p.kids[i].keys[SplitPoint(|p.kids[i].keys|)]))
    ensures var e := p.kids[i];
            var q := Extended(WithKid(p, i, LeftHalf(e)), i, e.keys[SplitPoint(|e.keys|)], RightHalf(e, id));
            TwoLevels(q) && Grandchild(q, k) == Grandchild(p, k)
  {
    SplitRoutes(p, i, SplitPoint(|p.kids[i].keys|), id, k);
  }

  /** One step of the descent after the cut. */
  lemma PartedStep(p: Tree, i: nat, c: nat, id: PageId, k: Key)
    requires TwoLevels(p) && i < |p.kids| && c < |p.kids[i].keys|
    requires Sorted(InsertAt(p.keys, i, p.kids[i].keys[c])) && TwoLevels(Parted(p, i, c, id))
    ensures var e, b := p.kids[i], LowerBound(p.keys, k);
            Step(Parted(p, i, c, id), k) == if b != i then Step(p, k)
                                            else if k <= e.keys[c] then Node(e.id, e.keys[..c], e.kids[..c + 1])
                                            else Node(id, e.keys[c + 1..], e.kids[c + 1..])
  {
    var p' := Parted(p, i, c, id);
    LowerBoundInsert(p.keys, i, p.kids[i].keys[c], k);
    PartedKid(p, i, c, id, LowerBound(p'.keys, k));
  }

  lemma PartedKid(p: Tree, i: nat, c: nat, id: PageId, x: nat)
    requires TwoLevels(p) && i < |p.kids| && c < |p.kids[i].keys| && x <= |p.kids|
    ensures var e := p.kids[i];
            Parted(p, i, c, id).kids[x] == if x == i then Node(e.id, e.keys[..c], e.kids[..c + 1])
                                           else if x == i + 1 then Node(id, e.keys[c + 1..], e.kids[c + 1..])
                                           else p.kids[if x < i then x else x - 1]
  {
  }

  lemma PartedLevels(p: Tree, i: nat, c: nat, id: PageId)
    requires TwoLevels(p) && i < |p.kids| && c < |p.kids[i].keys|
    requires Sorted(InsertAt(p.keys, i, p.kids[i].keys[c]))
    ensures TwoLevels(Parted(p, i, c, id))
  {
    var p' := Parted(p, i, c, id);
    forall x | 0 <= x < |p'.kids| ensures p'.kids[x].Node? && |p'.kids[x].kids| == |p'.kids[x].keys| + 1 {
      assert x > i + 1 ==> p'.kids[x] == p.kids[x - 1];
    }
  }

  /** A cut keeps every child, in order. */
  lemma RotationKeepsKids(u: Tree, sep: Key, w: Tree, i: nat)
    requires u.Node? && w.Node? && i < |RunKeys(u, sep, w)| && i < |RunKids(u, w)|
    ensures CutLeft(u, sep, w, i).kids + CutRight(u, sep, w, i).kids == u.kids + w.kids
  {
  }

  // ---------------------------------------------------------------- the parent of the pair

  /** x stands where the good tree t has its node at path, and is one key short. */
  ghost predicate Short(s: Store, t: Tree, h: nat, m: Mode, path: Path, x: Tree) {
    && Ok(t, h, Inf, Inf, m, true) && m.fill && m.caps.leaf >= 2 && m.caps.inner >= 2
    && path != [] && ValidPath(t, path) && |path| < h
    && x.id == Sub(t, path).id
    && InPlace(x, h - |path|, LoAt(t, path), HiAt(t, path), m)
    && |x.keys| + 1 == (if x.Leaf? then m.caps.leaf else m.caps.inner) / 2
    && Represents(s, Replace(t, path, x))
    && Owns(s, Pages(Replace(t, path, x)))
  }

  /** Ok, but for the number of keys in the top node. */
  predicate InPlace(x: Tree, h: nat, lo: Bound, hi: Bound, m: Mode) {
    match x
    case Leaf(_, ks, rs) => h == 1 && |ks| == |rs| && Sorted(ks) && Within(ks, lo, hi, m.strict)
    case Node(_, ks, kids) => h > 1 && KidsOk(ks, kids, h - 1, lo, hi, m)
  }

  lemma OkInPlace(x: Tree, h: nat, lo: Bound, hi: Bound, m: Mode, root: bool)
    requires Ok(x, h, lo, hi, m, root)
    ensures InPlace(x, h, lo, hi, m)
  {
  }

  lemma {:induction false} ReplaceTwice(t: Tree, path: Path, x: Tree, y: Tree)
    requires ValidPath(t, path) && x.id == Sub(t, path).id
    ensures ValidPath(Replace(t, path, x), path) && Replace(Replace(t, path, x), path, y) == Replace(t, path, y)
    decreases |path|
  {
    SubReplace(t, path, x);
    if path != [] {
      var up, i := path[..|path| - 1], path[|path| - 1].idx;
      var q := WithKid(Sub(t, up), i, x);
      SubReplace(t, up, q);
      ReplaceTwice(t, up, q, WithKid(q, i, y));
      assert WithKid(q, i, y) == WithKid(Sub(t, up), i, y);
    }
  }

  /** Replacing below and then above is replacing above. */
  lemma ReplaceAbove(t: Tree, path: Path, x: Tree, y: Tree)
    requires ValidPath(t, path) && path != [] && x.id == Sub(t, path).id
    ensures ValidPath(Replace(t, path, x), Up(path))
    ensures Sub(Replace(t, path, x), Up(path)) == WithKid(Sub(t, Up(path)), path[|path| - 1].idx, x)
    ensures Replace(Replace(t, path, x), Up(path), y) == Replace(t, Up(path), y)
  {
    var q := WithKid(Sub(t, Up(path)), path[|path| - 1].idx, x);
    SubReplace(t, Up(path), q);
    ReplaceTwice(t, Up(path), q, y);
  }

  /** The parent page and the pages of two neighbours rewritten. */
  lemma PairRepresents(s: Store, s': Store, q: Tree, q': Tree, c: seq<PageId>, ids: set<PageId>)
    requires q.Node? && q'.Node? && Represents(s, q) && SameBut(s, s', ids)
    requires q'.id in s'.inners && q'.id !in s'.leaves && s'.inners[q'.id] == InnerNode(q'.keys, c)
    requires |c| == |q'.kids| && forall i :: 0 <= i < |c| ==> c[i] == q'.kids[i].id
    requires forall i :: 0 <= i < |q'.kids| ==>
               Represents(s', q'.kids[i]) || (q'.kids[i] in q.kids && forall p :: p in Pages(q'.kids[i]) ==> p !in ids)
    ensures Represents(s', q')
  {
    forall i | 0 <= i < |q'.kids| ensures Represents(s', q'.kids[i]) {
      if !Represents(s', q'.kids[i]) {
        var j :| 0 <= j < |q.kids| && q.kids[j] == q'.kids[i];
        RepresentsFrame(s, s', q'.kids[i]);
      }
    }
  }

  /** The pages of a node's other children are none of a pair's own pages. */
  lemma OthersApart(q: Tree, j: nat, i: nat)
    requires q.Node? && Distinct(q) && j + 1 < |q.kids| && i < |q.kids| && i != j && i != j + 1
    ensures forall p :: p in Pages(q.kids[i]) ==> p !in {q.id, q.kids[j].id, q.kids[j + 1].id}
  {
    DistinctKids(q, i, j);
    DistinctKids(q, i, j + 1);
  }

  lemma BagsUpdate<A>(ts: seq<Tree>, j: nat, a: Tree, own: (PageId, seq<Key>) -> multiset<A>)
    requires j < |ts|
    ensures Bags(ts[j := a], own) + Bag(ts[j], own) == Bags(ts, own) + Bag(a, own)
  {
    BagsAt(ts, j, own);
    BagsAt(ts[j := a], j, own);
    assert ts[j := a][..j] == ts[..j] && ts[j := a][j + 1..] == ts[j + 1..];
  }

  lemma BagsRemove<A>(ts: seq<Tree>, j: nat, own: (PageId, seq<Key>) -> multiset<A>)
    requires j < |ts|
    ensures Bags(RemoveAt(ts, j), own) + Bag(ts[j], own) == Bags(ts, own)
  {
    BagsAt(ts, j, own);
    BagsConcat(ts[..j], ts[j + 1..], own);
  }

  lemma RotatedPages(q: Tree, j: nat, a: Tree, sep: Key, b: Tree)
    requires q.Node? && j < |q.keys| && j + 1 < |q.kids|
    requires Pages(a) + Pages(b) == Pages(q.kids[j]) + Pages(q.kids[j + 1])
    ensures Pages(Rotated(q, j, a, sep, b)) == Pages(q)
  {
    var ts := q.kids[j := a];
    BagsUpdate(q.kids, j, a, OwnPage);
    BagsUpdate(ts, j + 1, b, OwnPage);
    Balance(Bags(ts[j + 1 := b], OwnPage), Bags(ts, OwnPage), Bags(q.kids, OwnPage),
            Pages(a), Pages(b), Pages(q.kids[j]), Pages(q.kids[j + 1]));
  }

  lemma Balance<A>(z: multiset<A>, y: multiset<A>, x: multiset<A>, a: multiset<A>, b: multiset<A>, u: multiset<A>,
                   w: multiset<A>)
    requires y + u == x + a && z + w == y + b && a + b == u + w
    ensures z == x
  {
    forall e ensures z[e] == x[e] {
      assert (y + u)[e] == (x + a)[e] && (z + w)[e] == (y + b)[e] && (a + b)[e] == (u + w)[e];
    }
  }

  lemma RotatedRepresents(s: Store, s': Store, q: Tree, j: nat, a: Tree, sep: Key, b: Tree)
    requires q.Node? && j < |q.keys| && j + 1 < |q.kids| && Represents(s, q) && Distinct(q)
    requires Represents(s', a) && Represents(s', b) && a.id == q.kids[j].id && b.id == q.kids[j + 1].id
    requires SameBut(s, s', {q.id, a.id, b.id})
    requires q.id in s'.inners && q.id !in s'.leaves
    requires s'.inners[q.id] == InnerNode(q.keys[j := sep], s.inners[q.id].children)
    ensures Represents(s', Rotated(q, j, a, sep, b))
  {
    var q' := Rotated(q, j, a, sep, b);
    forall i | 0 <= i < |q'.kids| && i != j && i != j + 1
      ensures q'.kids[i] in q.kids && forall p :: p in Pages(q'.kids[i]) ==> p !in {q.id, a.id, b.id}
    {
      assert q'.kids[i] == q.kids[i];
      OthersApart(q, j, i);
    }
    PairRepresents(s, s', q, q', s.inners[q.id].children, {q.id, a.id, b.id});
  }

  /** Both neighbours and their separator rewritten in place. */
  lemma RotatedStore(s: Store, s': Store, t: Tree, up: Path, q: Tree, j: nat, a: Tree, sep: Key, b: Tree)
    requires Represents(s, t) && Owns(s, Pages(t)) && ValidPath(t, up)
    requires q == Sub(t, up) && q.Node? && j < |q.keys| && j + 1 < |q.kids|
    requires Represents(s', a) && Represents(s', b) && a.id == q.kids[j].id && b.id == q.kids[j + 1].id
    requires Pages(a) + Pages(b) == Pages(q.kids[j]) + Pages(q.kids[j + 1])
    requires SameBut(s, s', {q.id, a.id, b.id})
    requires s'.leaves.Keys == s.leaves.Keys && s'.inners.Keys == s.inners.Keys
    requires q.id in s.inners && q.id !in s.leaves
    requires s'.inners[q.id] == InnerNode(q.keys[j := sep], s.inners[q.id].children)
    ensures var q' := Rotated(q, j, a, sep, b);
            Represents(s', Replace(t, up, q')) && Owns(s', Pages(Replace(t, up, q')))
  {
    var q' := Rotated(q, j, a, sep, b);
    OwnsDistinct(s, t, multiset{});
    assert Represents(s', q') by {
      DistinctSub(t, up);
      SubRepresents(s, t, up);
      RotatedRepresents(s, s', q, j, a, sep, b);
    }
    PairInPages(q, j);
    RepresentsReplace(s, s', t, up, q');
    RotatedPages(q, j, a, sep, b);
    BagReplace(t, up, q', OwnPage);
    Swap(Pages(Replace(t, up, q')), Pages(q), Pages(t), Pages(q'), multiset{});
    OwnsSame(s, s', Pages(t));
  }

  lemma PairInPages(q: Tree, j: nat)
    requires q.Node? && j + 1 < |q.kids|
    ensures q.id in Pages(q) && q.kids[j].id in Pages(q) && q.kids[j + 1].id in Pages(q)
  {
    BagsAt(q.kids, j, OwnPage);
    BagsAt(q.kids, j + 1, OwnPage);
  }

  lemma FusedPages(q: Tree, j: nat, a: Tree)
    requires q.Node? && j < |q.keys| && j + 1 < |q.kids| && Pages(a) == Pages(q.kids[j])
    ensures Pages(Fused(q, j, a)) + Pages(q.kids[j + 1]) == Pages(q)
  {
    var ts := RemoveAt(q.kids, j + 1);
    BagsRemove(q.kids, j + 1, OwnPage);
    BagsUpdate(ts, j, a, OwnPage);
    assert ts[j] == q.kids[j];
    Swap(Bags(ts[j := a], OwnPage), Pages(q.kids[j]), Bags(ts, OwnPage), Pages(a), multiset{});
  }

  lemma FusedRepresents(s: Store, s': Store, q: Tree, j: nat, a: Tree)
    requires q.Node? && j < |q.keys| && j + 1 < |q.kids| && Represents(s, q) && Distinct(q)
    requires Represents(s', a) && a.id == q.kids[j].id && SameBut(s, s', {q.id, a.id, q.kids[j + 1].id})
    requires q.id in s'.inners && q.id !in s'.leaves
    requires s'.inners[q.id] == InnerNode(RemoveAt(q.keys, j), RemoveAt(s.inners[q.id].children, j + 1))
    ensures Represents(s', Fused(q, j, a))
  {
    var q' := Fused(q, j, a);
    var ids := {q.id, a.id, q.kids[j + 1].id};
    forall i | 0 <= i < |q'.kids| && i != j
      ensures q'.kids[i] in q.kids && forall p :: p in Pages(q'.kids[i]) ==> p !in ids
    {
      var i' := if i < j then i else i + 1;
      assert q'.kids[i] == q.kids[i'];
      OthersApart(q, j, i');
    }
    PairRepresents(s, s', q, q', RemoveAt(s.inners[q.id].children, j + 1), ids);
  }

  /** The left neighbour rewritten, the right one's page dropped. */
  lemma FusedStore(s: Store, s': Store, t: Tree, up: Path, q: Tree, j: nat, a: Tree)
    requires Represents(s, t) && Owns(s, Pages(t)) && ValidPath(t, up)
    requires q == Sub(t, up) && q.Node? && j < |q.keys| && j + 1 < |q.kids|
    requires Represents(s', a) && a.id == q.kids[j].id && Pages(a) == Pages(q.kids[j]) && q.kids[j + 1].Leaf?
    requires SameBut(s, s', {q.id, a.id, q.kids[j + 1].id})
    requires s'.leaves.Keys == s.leaves.Keys - {q.kids[j + 1].id} && s'.inners.Keys == s.inners.Keys
    requires q.id in s.inners && q.id !in s.leaves && |s.inners[q.id].children| == |q.kids|
    requires s'.inners[q.id] == InnerNode(RemoveAt(q.keys, j), RemoveAt(s.inners[q.id].children, j + 1))
    ensures var q' := Fused(q, j, a);
            Represents(s', Replace(t, up, q')) && Owns(s', Pages(Replace(t, up, q')))
  {
    var q' := Fused(q, j, a);
    OwnsDistinct(s, t, multiset{});
    SubRepresents(s, t, up);
    assert Represents(s', q') by {
      DistinctSub(t, up);
      FusedRepresents(s, s', q, j, a);
    }
    PairInPages(q, j);
    RepresentsReplace(s, s', t, up, q');
    FusedPages(q, j, a);
    assert q.kids[j + 1].id in s.leaves;
    OwnsLess(s, s', t, up, q', q.kids[j + 1].id);
  }

  lemma OwnsLess(s: Store, s': Store, t: Tree, up: Path, q': Tree, gone: PageId)
    requires Owns(s, Pages(t)) && ValidPath(t, up)
    requires s'.leaves.Keys == s.leaves.Keys - {gone} && s'.inners.Keys == s.inners.Keys && gone in s.leaves
    requires Pages(q') + multiset{gone} == Pages(Sub(t, up))
    ensures Owns(s', Pages(Replace(t, up, q')))
  {
    BagReplace(t, up, q', OwnPage);
    var all := Pages(Replace(t, up, q'));
    forall p ensures all[p] == if p in s'.Ids() then 1 else 0 {
      assert (all + Pages(Sub(t, up)))[p] == (Pages(t) + Pages(q'))[p];
      assert (Pages(q') + multiset{gone})[p] == Pages(Sub(t, up))[p];
    }
  }

  // ---------------------------------------------------------------- repairs

  /** The children at j and j + 1 of the parent q, one of them short, are in order, and
      everything else under q is good. */
  predicate PairAt(q: Tree, j: nat, h: nat, lo: Bound, hi: Bound, m: Mode) {
    && q.Node? && h > 0 && KidsBut(q.keys, q.kids, h, lo, hi, m, j)
    && InPlace(q.kids[j], h, LoOf(q.keys, lo, j), At(q.keys[j]), m)
    && InPlace(q.kids[j + 1], h, At(q.keys[j]), HiOf(q.keys, hi, j + 1), m)
    && Above(LoOf(q.keys, lo, j), q.keys[j]) && Below(q.keys[j], HiOf(q.keys, hi, j + 1), true)
  }

  lemma PairFacts(t: Tree, h: nat, m: Mode, path: Path, x: Tree, q: Tree, j: nat)
    requires Ok(t, h, Inf, Inf, m, true) && path != [] && ValidPath(t, path) && |path| < h
    requires InPlace(x, h - |path|, LoAt(t, path), HiAt(t, path), m)
    requires q == WithKid(Sub(t, Up(path)), path[|path| - 1].idx, x)
    requires j + 1 == path[|path| - 1].idx || (j == path[|path| - 1].idx && j < |q.keys|)
    ensures PairAt(q, j, h - |path|, LoAt(t, Up(path)), HiAt(t, Up(path)), m)
    ensures var i := if j == path[|path| - 1].idx then j + 1 else j;
            && q.kids[i] == Sub(t, Up(path)).kids[i]
            && Ok(q.kids[i], h - |path|, LoOf(q.keys, LoAt(t, Up(path)), i), HiOf(q.keys, HiAt(t, Up(path)), i), m,
                  false)
    ensures SizeOk(|q.keys|, m.caps.inner, m.fill && Up(path) != []) && (m.fill ==> 1 <= |q.keys|)
  {
    var up := Up(path);
    SubOk(t, h, m, up);
    PairOf(Sub(t, up), path[|path| - 1].idx, x, j, h - |path|, LoAt(t, up), HiAt(t, up), m);
  }

  lemma PairOf(p: Tree, i: nat, x: Tree, j: nat, h: nat, lo: Bound, hi: Bound, m: Mode)
    requires p.Node? && h > 0 && KidsOk(p.keys, p.kids, h, lo, hi, m) && i < |p.kids|
    requires InPlace(x, h, LoOf(p.keys, lo, i), HiOf(p.keys, hi, i), m)
    requires j + 1 == i || (j == i && j < |p.keys|)
    ensures PairAt(WithKid(p, i, x), j, h, lo, hi, m)
    ensures var o := if j == i then j + 1 else j;
            Ok(p.kids[o], h, LoOf(p.keys, lo, o), HiOf(p.keys, hi, o), m, false)
  {
    var o := if j == i then j + 1 else j;
    assert Ok(p.kids[o], h, LoOf(p.keys, lo, o), HiOf(p.keys, hi, o), m, false);
    OkInPlace(p.kids[o], h, LoOf(p.keys, lo, o), HiOf(p.keys, hi, o), m, false);
    var q := WithKid(p, i, x);
    assert KidsBut(q.keys, q.kids, h, lo, hi, m, j);
  }

  lemma PairSearch(q: Tree, j: nat, k: Key)
    requires q.Node? && |q.kids| == |q.keys| + 1 && j < |q.keys| && Sorted(q.keys)
    requires LowerBound(q.keys, k) == j || LowerBound(q.keys, k) == j + 1
    ensures Lookup(q, k) == PairLookup(q.kids[j], q.keys[j], q.kids[j + 1], k)
  {
  }

  lemma PairSorted(q: Tree, j: nat, sep: Key, h: nat, lo: Bound, hi: Bound, m: Mode)
    requires PairAt(q, j, h, lo, hi, m)
    requires Above(LoOf(q.keys, lo, j), sep) && Below(sep, HiOf(q.keys, hi, j + 1), true)
    ensures Sorted(q.keys[j := sep])
  {
  }

  /** A new pair in the same place that answers every search as the old one did. */
  lemma RotatedSearch(q: Tree, j: nat, a: Tree, sep: Key, b: Tree, h: nat, lo: Bound, hi: Bound, m: Mode, k: Key)
    requires PairAt(q, j, h, lo, hi, m)
    requires Above(LoOf(q.keys, lo, j), sep) && Below(sep, HiOf(q.keys, hi, j + 1), true)
    ensures var i := LowerBound(q.keys, k);
            Lookup(Rotated(q, j, a, sep, b), k) ==
            if i == j || i == j + 1 then PairLookup(a, sep, b, k) else Lookup(q, k)
  {
    PairSorted(q, j, sep, h, lo, hi, m);
    RotatedLookup(q, j, a, sep, b, k);
  }

  /** The map changes only at the two separators of a borrow. */
  ghost predicate Misplaced(t: Tree, t': Tree, sep: Key, moved: Key, r: PageReference) {
    && sep != moved && Lookup(t, moved) == Some(r)
    && forall k :: Lookup(t', k) == if k == sep then Some(r) else if k == moved then None else Lookup(t, k)
  }

  /** The map loses one key. */
  ghost predicate Loses(t: Tree, t': Tree, lost: Key) {
    && Lookup(t, lost).Some?
    && forall k :: Lookup(t', k) == if k == lost then None else Lookup(t, k)
  }

  ghost predicate SameSearches(t: Tree, t': Tree) {
    forall k :: Lookup(t', k) == Lookup(t, k)
  }

  lemma SameAbove(t: Tree, path: Path, x: Tree, q: Tree, q': Tree)
    requires ValidPath(t, path) && path != [] && x.id == Sub(t, path).id
    requires q == WithKid(Sub(t, Up(path)), path[|path| - 1].idx, x)
    requires SameSearches(q, q')
    ensures SameSearches(Replace(t, path, x), Replace(t, Up(path), q'))
  {
    forall k ensures Lookup(Replace(t, Up(path), q'), k) == Lookup(Replace(t, path, x), k) {
      LookupReplace(t, Up(path), q', k);
      LookupReplace(t, Up(path), q, k);
    }
  }

  lemma LosesAbove(t: Tree, path: Path, x: Tree, q: Tree, q': Tree, lost: Key)
    requires ValidPath(t, path) && path != [] && x.id == Sub(t, path).id
    requires q == WithKid(Sub(t, Up(path)), path[|path| - 1].idx, x)
    requires Loses(q, q', lost) && Routes(t, Up(path), lost)
    ensures Loses(Replace(t, path, x), Replace(t, Up(path), q'), lost)
  {
    LookupReplace(t, Up(path), q, lost);
    forall k ensures Lookup(Replace(t, Up(path), q'), k) ==
                     if k == lost then None else Lookup(Replace(t, path, x), k) {
      LookupReplace(t, Up(path), q', k);
      LookupReplace(t, Up(path), q, k);
    }
  }

  lemma MisplacedAbove(t: Tree, h: nat, m: Mode, path: Path, x: Tree, q: Tree, q': Tree, sep: Key, moved: Key,
                       r: PageReference)
    requires Ok(t, h, Inf, Inf, m, true)
    requires ValidPath(t, path) && path != [] && x.id == Sub(t, path).id
    requires q == WithKid(Sub(t, Up(path)), path[|path| - 1].idx, x)
    requires Misplaced(q, q', sep, moved, r)
    requires Routes(t, Up(path), sep) && Routes(t, Up(path), moved)
    ensures Misplaced(Replace(t, path, x), Replace(t, Up(path), q'), sep, moved, r)
  {
    LookupReplace(t, Up(path), q, moved);
    forall k ensures Lookup(Replace(t, Up(path), q'), k) ==
                     if k == sep then Some(r) else if k == moved then None else Lookup(Replace(t, path, x), k) {
      LookupReplace(t, Up(path), q', k);
      LookupReplace(t, Up(path), q, k);
    }
  }

  /** Merging a short leaf into its neighbour: it fits, the parent stays in order, and no
      search changes. */
  lemma MergeRepair(q: Tree, j: nat, lo: Bound, hi: Bound, m: Mode)
    requires PairAt(q, j, 1, lo, hi, m) && q.kids[j].Leaf? && q.kids[j + 1].Leaf?
    requires m.caps.leaf / 2 <= |q.kids[j].keys| + |q.kids[j + 1].keys| <= m.caps.leaf
    ensures var q' := Fused(q, j, Merged(q.kids[j], q.kids[j + 1]));
            KidsOk(q'.keys, q'.kids, 1, lo, hi, m) && SameSearches(q, q')
  {
    var u, w, sep := q.kids[j], q.kids[j + 1], q.keys[j];
    var a := Merged(u, w);
    var lo', hi' := LoOf(q.keys, lo, j), HiOf(q.keys, hi, j + 1);
    MergedSorted(u, sep, w, lo', hi', m.strict);
    FusedOk(q, 1, lo, hi, m, j, a);
    forall k ensures Lookup(Fused(q, j, a), k) == Lookup(q, k) {
      FusedLookup(q, j, a, k);
      MergedLookup(u, sep, w, lo', hi', m.strict, k);
      if LowerBound(q.keys, k) == j || LowerBound(q.keys, k) == j + 1 { PairSearch(q, j, k); }
    }
  }

  /** Borrowing between leaves keeps the order and the depth, and misplaces one reference. */
  lemma BorrowRepair(q: Tree, j: nat, lo: Bound, hi: Bound, m: Mode, a: Tree, sep: Key, b: Tree, r: PageReference)
    requires PairAt(q, j, 1, lo, hi, m) && q.kids[j].Leaf? && q.kids[j + 1].Leaf?
    requires LeafPair(a, sep, b, LoOf(q.keys, lo, j), HiOf(q.keys, hi, j + 1), m.strict)
    requires Borrowed(q.kids[j], q.keys[j], q.kids[j + 1], a, sep, b, r)
    requires SizeOk(|a.keys|, m.caps.leaf, true) && SizeOk(|b.keys|, m.caps.leaf, true)
    ensures var q' := Rotated(q, j, a, sep, b);
            KidsOk(q'.keys, q'.kids, 1, lo, hi, m) && Misplaced(q, q', q.keys[j], sep, r)
  {
    RotatedOk(q, 1, lo, hi, m, j, a, sep, b);
    var lo', hi' := LoOf(q.keys, lo, j), HiOf(q.keys, hi, j + 1);
    InPair(q, j, lo, hi, m, sep);
    InPair(q, j, lo, hi, m, q.keys[j]);
    PairSearch(q, j, sep);
    forall k ensures Lookup(Rotated(q, j, a, sep, b), k) ==
                     if k == q.keys[j] then Some(r) else if k == sep then None else Lookup(q, k) {
      RotatedSearch(q, j, a, sep, b, 1, lo, hi, m, k);
      if LowerBound(q.keys, k) == j || LowerBound(q.keys, k) == j + 1 { PairSearch(q, j, k); }
    }
  }

  /** A borrow that breaks the order loses one key and changes no other search. */
  lemma BorrowDrops(q: Tree, j: nat, lo: Bound, hi: Bound, m: Mode, a: Tree, sep: Key, b: Tree, lost: Key)
    requires PairAt(q, j, 1, lo, hi, m) && q.kids[j].Leaf? && q.kids[j + 1].Leaf?
    requires Above(LoOf(q.keys, lo, j), sep) && Below(sep, HiOf(q.keys, hi, j + 1), true)
    requires Above(LoOf(q.keys, lo, j), lost) && Below(lost, HiOf(q.keys, hi, j + 1), false)
    requires Dropped(q.kids[j], q.keys[j], q.kids[j + 1], a, sep, b, lost)
    ensures Loses(q, Rotated(q, j, a, sep, b), lost)
  {
    InPair(q, j, lo, hi, m, lost);
    PairSearch(q, j, lost);
    forall k ensures Lookup(Rotated(q, j, a, sep, b), k) == if k == lost then None else Lookup(q, k) {
      RotatedSearch(q, j, a, sep, b, 1, lo, hi, m, k);
      if LowerBound(q.keys, k) == j || LowerBound(q.keys, k) == j + 1 { PairSearch(q, j, k); }
    }
  }

  lemma InPair(q: Tree, j: nat, lo: Bound, hi: Bound, m: Mode, k: Key)
    requires PairAt(q, j, 1, lo, hi, m)
    requires Above(LoOf(q.keys, lo, j), k) && Below(k, HiOf(q.keys, hi, j + 1), false)
    ensures LowerBound(q.keys, k) == if k <= q.keys[j] then j else j + 1
    ensures Above(lo, k) && Below(k, hi, false)
  {
    LowerBoundIs(q.keys, k, if k <= q.keys[j] then j else j + 1);
  }

  /** Rotating between inner neighbours: the run of their keys and children is cut at
      another place i.  Order and depth stay, and no search changes. */
  lemma RotationRepair(q: Tree, j: nat, h: nat, lo: Bound, hi: Bound, m: Mode, i: nat)
    requires PairAt(q, j, h, lo, hi, m) && q.kids[j].Node? && q.kids[j + 1].Node?
    requires i < |RunKeys(q.kids[j], q.keys[j], q.kids[j + 1])|
    requires var n := |RunKeys(q.kids[j], q.keys[j], q.kids[j + 1])|;
             && SizeOk(i, m.caps.inner, m.fill) && SizeOk(n - i - 1, m.caps.inner, m.fill)
             && (m.fill ==> 1 <= i && 1 <= n - i - 1)
    ensures var u, sep, w := q.kids[j], q.keys[j], q.kids[j + 1];
            && i < |RunKids(u, w)|
            && var q' := Rotated(q, j, CutLeft(u, sep, w, i), RunKeys(u, sep, w)[i], CutRight(u, sep, w, i));
            && KidsOk(q'.keys, q'.kids, h, lo, hi, m) && SameSearches(q, q')
  {
    var u, sep, w := q.kids[j], q.keys[j], q.kids[j + 1];
    var a, s, b := CutLeft(u, sep, w, i), RunKeys(u, sep, w)[i], CutRight(u, sep, w, i);
    CutOk(u, sep, w, h, LoOf(q.keys, lo, j), HiOf(q.keys, hi, j + 1), m, i);
    RotatedOk(q, h, lo, hi, m, j, a, s, b);
    forall k ensures Lookup(Rotated(q, j, a, s, b), k) == Lookup(q, k) {
      RotatedSearch(q, j, a, s, b, h, lo, hi, m, k);
      if LowerBound(q.keys, k) == j || LowerBound(q.keys, k) == j + 1 {
        PairSearch(q, j, k);
        CutSearch(u, sep, w, i, k);
      }
    }
  }

  lemma CutOk(u: Tree, sep: Key, w: Tree, h: nat, lo: Bound, hi: Bound, m: Mode, i: nat)
    requires u.Node? && w.Node? && InPlace(u, h, lo, At(sep), m) && InPlace(w, h, At(sep), hi, m)
    requires Above(lo, sep) && Below(sep, hi, true) && i < |RunKeys(u, sep, w)|
    requires var n := |RunKeys(u, sep, w)|;
             && SizeOk(i, m.caps.inner, m.fill) && SizeOk(n - i - 1, m.caps.inner, m.fill)
             && (m.fill ==> 1 <= i && 1 <= n - i - 1)
    ensures i < |RunKids(u, w)| && Sorted(RunKeys(u, sep, w))
    ensures Ok(CutLeft(u, sep, w, i), h, lo, At(RunKeys(u, sep, w)[i]), m, false)
    ensures Ok(CutRight(u, sep, w, i), h, At(RunKeys(u, sep, w)[i]), hi, m, false)
    ensures Above(lo, RunKeys(u, sep, w)[i]) && Below(RunKeys(u, sep, w)[i], hi, true)
  {
    JoinKids(u.keys, u.kids, w.keys, w.kids, sep, h - 1, lo, hi, m);
    SplitKids(RunKeys(u, sep, w), RunKids(u, w), h - 1, lo, hi, m, i);
  }

  lemma CutSearch(u: Tree, sep: Key, w: Tree, i: nat, k: Key)
    requires u.Node? && w.Node? && |u.kids| == |u.keys| + 1 && |w.kids| == |w.keys| + 1
    requires Sorted(RunKeys(u, sep, w)) && i < |RunKeys(u, sep, w)|
    ensures PairLookup(CutLeft(u, sep, w, i), RunKeys(u, sep, w)[i], CutRight(u, sep, w, i), k) ==
            PairLookup(u, sep, w, k)
  {
    CutRoutes(u, sep, w, i, k);
    assert forall n: Tree :: n.Node? && |n.kids| == |n.keys| + 1 ==> Lookup(n, k) == Lookup(Step(n, k), k);
  }

  lemma CutPages(u: Tree, sep: Key, w: Tree, i: nat)
    requires u.Node? && w.Node? && i < |RunKeys(u, sep, w)| && i < |RunKids(u, w)|
    ensures Bags(CutLeft(u, sep, w, i).kids, OwnPage) + Bags(CutRight(u, sep, w, i).kids, OwnPage) ==
            Bags(u.kids, OwnPage) + Bags(w.kids, OwnPage)
    ensures Pages(CutLeft(u, sep, w, i)) + Pages(CutRight(u, sep, w, i)) == Pages(u) + Pages(w)
  {
    var kids := RunKids(u, w);
    BagsConcat(kids[..i + 1], kids[i + 1..], OwnPage);
    BagsConcat(u.kids, w.kids, OwnPage);
    assert kids == kids[..i + 1] + kids[i + 1..];
    TwoTops(u.id, w.id, Bags(kids[..i + 1], OwnPage), Bags(kids[i + 1..], OwnPage), Bags(u.kids, OwnPage),
            Bags(w.kids, OwnPage));
  }

  lemma TwoTops(u: PageId, w: PageId, a: multiset<PageId>, b: multiset<PageId>, c: multiset<PageId>,
                d: multiset<PageId>)
    requires a + b == c + d
    ensures (multiset{u} + a) + (multiset{w} + b) == (multiset{u} + c) + (multiset{w} + d)
  {
    forall e ensures ((multiset{u} + a) + (multiset{w} + b))[e] == ((multiset{u} + c) + (multiset{w} + d))[e] {
      assert (a + b)[e] == (c + d)[e];
    }
  }

  /** The three pages of an inner rotation. */
  function RotationStore(s: Store, q: Tree, j: nat, i: nat, uc: seq<PageId>, wc: seq<PageId>): Store
    requires q.Node? && j < |q.keys| && j + 1 < |q.kids| && q.id in s.inners
    requires i < |RunKeys(q.kids[j], q.keys[j], q.kids[j + 1])| && i < |uc + wc|
  {
    var ks, c := RunKeys(q.kids[j], q.keys[j], q.kids[j + 1]), uc + wc;
    s.(inners := s.inners[q.kids[j].id := InnerNode(ks[..i], c[..i + 1])]
                         [q.kids[j + 1].id := InnerNode(ks[i + 1..], c[i + 1..])]
                         [q.id := InnerNode(q.keys[j := ks[i]], s.inners[q.id].children)])
  }

  lemma RotationRepresents(s: Store, q: Tree, j: nat, i: nat, s': Store)
    requires q.Node? && j < |q.keys| && j + 1 < |q.kids| && Represents(s, q) && Distinct(q)
    requires q.kids[j].Node? && q.kids[j + 1].Node?
    requires var u, w := q.kids[j], q.kids[j + 1];
             && |u.kids| == |u.keys| + 1 && |w.kids| == |w.keys| + 1
             && i < |RunKeys(u, q.keys[j], w)|
             && u.id in s.inners && w.id in s.inners && |s.inners[u.id].children| == |u.kids|
             && |s.inners[w.id].children| == |w.kids|
             && s' == RotationStore(s, q, j, i, s.inners[u.id].children, s.inners[w.id].children)
    ensures var u, w := q.kids[j], q.kids[j + 1];
            Represents(s', CutLeft(u, q.keys[j], w, i)) && Represents(s', CutRight(u, q.keys[j], w, i))
    ensures SameBut(s, s', {q.id, q.kids[j].id, q.kids[j + 1].id})
    ensures s'.leaves == s.leaves && s'.inners.Keys == s.inners.Keys && q.id in s'.inners
    ensures s'.inners[q.id] ==
            InnerNode(q.keys[j := RunKeys(q.kids[j], q.keys[j], q.kids[j + 1])[i]], s.inners[q.id].children)
  {
    var u, sep, w := q.kids[j], q.keys[j], q.kids[j + 1];
    var ids := {q.id, u.id, w.id};
    PairApart(q, j);
    assert Represents(s, u) && Represents(s, w);
    assert SameBut(s, s', ids);
    CutRepresents(s, s', u, sep, w, i, s.inners[u.id].children + s.inners[w.id].children, ids);
  }

  lemma CutRepresents(s: Store, s': Store, u: Tree, sep: Key, w: Tree, i: nat, c: seq<PageId>, ids: set<PageId>)
    requires u.Node? && w.Node? && Represents(s, u) && Represents(s, w)
    requires i < |RunKeys(u, sep, w)| && i < |RunKids(u, w)|
    requires c == s.inners[u.id].children + s.inners[w.id].children
    requires SameBut(s, s', ids)
    requires forall p :: p in Bags(u.kids, OwnPage) || p in Bags(w.kids, OwnPage) ==> p !in ids
    requires u.id in s'.inners && u.id !in s'.leaves && w.id in s'.inners && w.id !in s'.leaves
    requires s'.inners[u.id] == InnerNode(RunKeys(u, sep, w)[..i], c[..i + 1])
    requires s'.inners[w.id] == InnerNode(RunKeys(u, sep, w)[i + 1..], c[i + 1..])
    ensures Represents(s', CutLeft(u, sep, w, i)) && Represents(s', CutRight(u, sep, w, i))
  {
    CutApart(u, sep, w, i, ids);
    CutMatch(s, u, w, c, i, sep);
    RewriteInner(s, s', CutLeft(u, sep, w, i), c[..i + 1], ids);
    RewriteInner(s, s', CutRight(u, sep, w, i), c[i + 1..], ids);
  }

  lemma CutApart(u: Tree, sep: Key, w: Tree, i: nat, ids: set<PageId>)
    requires u.Node? && w.Node? && i < |RunKeys(u, sep, w)| && i < |RunKids(u, w)|
    requires forall p :: p in Bags(u.kids, OwnPage) || p in Bags(w.kids, OwnPage) ==> p !in ids
    ensures forall p :: p in Bags(CutLeft(u, sep, w, i).kids, OwnPage) ==> p !in ids
    ensures forall p :: p in Bags(CutRight(u, sep, w, i).kids, OwnPage) ==> p !in ids
  {
    CutPages(u, sep, w, i);
    var l, r := Bags(CutLeft(u, sep, w, i).kids, OwnPage), Bags(CutRight(u, sep, w, i).kids, OwnPage);
    forall p | p in l || p in r ensures p !in ids {
      assert p in l + r;
    }
  }

  lemma CutMatch(s: Store, u: Tree, w: Tree, c: seq<PageId>, i: nat, sep: Key)
    requires u.Node? && w.Node? && Represents(s, u) && Represents(s, w)
    requires c == s.inners[u.id].children + s.inners[w.id].children
    requires i < |RunKeys(u, sep, w)| && i < |RunKids(u, w)|
    ensures ChildrenMatch(s, CutLeft(u, sep, w, i), c[..i + 1]) && ChildrenMatch(s, CutRight(u, sep, w, i), c[i + 1..])
  {
    var kids := RunKids(u, w);
    assert forall x :: 0 <= x < |kids| ==> c[x] == kids[x].id && Represents(s, kids[x]);
  }

  /** The pages below a pair of inner nodes are none of the three top pages. */
  lemma PairApart(q: Tree, j: nat)
    requires q.Node? && Distinct(q) && j + 1 < |q.kids| && q.kids[j].Node? && q.kids[j + 1].Node?
    ensures var u, w := q.kids[j], q.kids[j + 1];
            && u.id != w.id && u.id != q.id && w.id != q.id
            && forall p :: p in Bags(u.kids, OwnPage) || p in Bags(w.kids, OwnPage) ==> p !in {q.id, u.id, w.id}
  {
    var u, w := q.kids[j], q.kids[j + 1];
    DistinctKids(q, j, j + 1);
    DistinctKids(q, j + 1, j);
    KidDistinct(q, j);
    KidDistinct(q, j + 1);
    assert Pages(u) == multiset{u.id} + Bags(u.kids, OwnPage) && Pages(w) == multiset{w.id} + Bags(w.kids, OwnPage);
    assert u.id in Pages(u) && w.id in Pages(w);
    assert Pages(u)[u.id] <= 1 && Pages(w)[w.id] <= 1;
  }

  lemma KidDistinct(q: Tree, i: nat)
    requires q.Node? && Distinct(q) && i < |q.kids|
    ensures Distinct(q.kids[i])
  {
    BagsAt(q.kids, i, OwnPage);
    forall p ensures Pages(q.kids[i])[p] <= 1 { assert Pages(q)[p] <= 1; }
  }

  /** mergeInternalLeft and mergeInternalRight drop the right node's first child, so the
      children are one too few for the keys, and assigning them is always refused. */
  lemma InnerMergeRefused(l: InnerNode, sep: Key, r: InnerNode)
    requires |l.children| == |l.keys| + 1 && |r.children| == |r.keys| + 1
    ensures var ks, c := l.keys + [sep] + r.keys, l.children + r.children[1..]; |c| != |ks| + 1
  {
  }
}
