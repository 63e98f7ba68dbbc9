/**
  Whole runs of inserts: what every reachable tree satisfies.
 */
module TreeRuns {
  import opened Options
  import opened PageReferences
  import opened Trees
  import opened Stores
  import opened Rebalancing
  import opened Inserting
  import opened Space
  import opened BTrees

  function Power(b: nat, e: nat): nat {
    if e == 0 then 1 else b * Power(b, e - 1)
  }

  /** The least number of keys, plus one, in a non-root subtree of height h. */
  function LeastPlusOne(caps: Caps, h: nat): nat {
    (caps.leaf / 2 + 1) * Power(caps.inner / 2 + 1, if h > 0 then h - 1 else 0)
  }

  lemma LeastStep(caps: Caps, h: nat)
    requires h > 0
    ensures LeastPlusOne(caps, h + 1) == (caps.inner / 2 + 1) * LeastPlusOne(caps, h)
  {
    var l, b, p := caps.leaf / 2 + 1, caps.inner / 2 + 1, Power(caps.inner / 2 + 1, h - 1);
    assert l * (b * p) == b * (l * p);
  }

  lemma {:induction false} ManyKids(kids: seq<Tree>, least: nat)
    requires forall i :: 0 <= i < |kids| ==> |Keys(kids[i])| + 1 >= least
    ensures |Bags(kids, OwnKeys)| + |kids| >= |kids| * least
  {
    if kids != [] {
      assert Bags(kids, OwnKeys) == Keys(kids[0]) + Bags(kids[1..], OwnKeys);
      ManyKids(kids[1..], least);
      assert |kids| * least == least + (|kids| - 1) * least;
    }
  }

  lemma {:induction false} SubtreeKeys(t: Tree, h: nat, lo: Bound, hi: Bound, m: Mode)
    requires Ok(t, h, lo, hi, m, false) && m.fill
    ensures |Keys(t)| + 1 >= LeastPlusOne(m.caps, h)
  {
    match t
    case Leaf(_, ks, _) =>
      assert LeastPlusOne(m.caps, 1) == m.caps.leaf / 2 + 1;
    case Node(_, ks, kids) =>
      var least := LeastPlusOne(m.caps, h - 1);
      forall i | 0 <= i < |kids| ensures |Keys(kids[i])| + 1 >= least {
        SubtreeKeys(kids[i], h - 1, LoOf(ks, lo, i), HiOf(ks, hi, i), m);
      }
      ManyKids(kids, least);
      LeastStep(m.caps, h - 1);
      Monotone(m.caps.inner / 2 + 1, |kids|, least);
  }

  lemma Monotone(a: nat, b: nat, c: nat)
    requires a <= b
    ensures a * c <= b * c
  {
  }

  /** A tree of height h >= 2 holds at least 2(l+1)(m+1)^(h-2) - 1 keys, where l and m are
      half the leaf and inner capacities. */
  lemma TreeKeys(t: Tree, h: nat, m: Mode)
    requires Ok(t, h, Inf, Inf, m, true) && m.fill && h >= 2
    ensures |Keys(t)| + 1 >= 2 * ((m.caps.leaf / 2 + 1) * Power(m.caps.inner / 2 + 1, h - 2))
  {
    var least := LeastPlusOne(m.caps, h - 1);
    forall i | 0 <= i < |t.kids| ensures |Keys(t.kids[i])| + 1 >= least {
      SubtreeKeys(t.kids[i], h - 1, LoOf(t.keys, Inf, i), HiOf(t.keys, Inf, i), m);
    }
    ManyKids(t.kids, least);
    Monotone(2, |t.kids|, least);
  }

  // ---------------------------------------------------------------- lost medians

  /** A successful insert of a new key k is lost at once exactly when its leaf is full and
      the key falls in the middle of it. */
  lemma LostIff(t: Tree, k: Key, v: PageReference, caps: Caps)
    requires Sorted(LeafFor(t, k).keys) && k !in LeafFor(t, k).keys
    ensures var ks := LeafFor(t, k).keys;
            Updated(t, k, v, caps, k) == None <==> caps.leaf <= |ks| && LowerBound(ks, k) == (|ks| + 1) / 2
  {
    var ks := LeafFor(t, k).keys;
    var i := LowerBound(ks, k);
    SortedInsert(ks, i, k);
    var all := InsertAt(ks, i, k);
    assert forall j :: 0 <= j < |all| && j != i ==> all[j] != all[i];
  }

  // ---------------------------------------------------------------- runs

  /** The keys of the accepted entries, as a multiset. */
  function Accepted(entries: seq<(Key, PageReference)>, ok: seq<bool>): multiset<Key>
    requires |entries| == |ok|
  {
    if entries == [] then multiset{} else
    var n := |entries| - 1;
    Accepted(entries[..n], ok[..n]) + if ok[n] then multiset{entries[n].0} else multiset{}
  }

  /** The tree's invariant, with the size counting leaf keys and separators together. */
  ghost predicate Counted(b: BTree)
    reads b, b.space, b.space.pages, b.space.freeMap
  {
    b.Valid(Mode(b.caps, false, true)) && b.size == |b.KeyBag()|
  }

  ghost function TreeIn(b: BTree): Option<Tree> reads b { if b.Empty() then None else Some(b.tree) }

  function Search(t: Option<Tree>, k: Key): Option<PageReference> { if t.None? then None else Lookup(t.value, k) }

  /** What a successful insert of key finds afterwards. */
  function AfterPut(t: Option<Tree>, key: Key, v: PageReference, caps: Caps, k: Key): Option<PageReference> {
    if t.None? then (if k == key then Some(v) else None) else Updated(t.value, key, v, caps, k)
  }

  /** One insert, while there are pages: what it answers, and what is found afterwards. */
  method InsertOne(b: BTree, key: Key, v: PageReference) returns (st: Status)
    requires b.Valid(Mode(b.caps, false, true)) && Spare(b.space.Live()) > b.height
    modifies b, b.space.pages, b.space.freeMap
    ensures b.Valid(Mode(b.caps, false, true)) && b.Foreign() == old(b.Foreign())
    ensures st == if !v.IsValid() then InvalidReference else if old(b.Value(key)).Some? then Duplicate else Done
    ensures st == Done ==> b.KeyBag() == old(b.KeyBag()) + multiset{key} && b.size == old(b.size) + 1
    ensures st != Done ==> b.KeyBag() == old(b.KeyBag()) && b.size == old(b.size)
    ensures forall k :: Search(TreeIn(b), k) == if st == Done then AfterPut(old(TreeIn(b)), key, v, b.caps, k)
                                                else Search(old(TreeIn(b)), k)
  {
    ghost var t := TreeIn(b);
    st := b.Insert(key, v, Mode(b.caps, false, true));
    forall k ensures Search(TreeIn(b), k) == if st == Done then AfterPut(t, key, v, b.caps, k) else Search(t, k) {
      assert Search(TreeIn(b), k) == b.Value(k) && Search(t, k) == old(b.Value(k));
    }
  }

  /** An entry is accepted exactly when its reference is valid and no search finds its key. */
  ghost predicate Step(t: Option<Tree>, e: (Key, PageReference), ok: bool, caps: Caps, t': Option<Tree>) {
    && (ok <==> e.1.IsValid() && Search(t, e.0).None?)
    && forall k :: Search(t', k) == if ok then AfterPut(t, e.0, e.1, caps, k) else Search(t, k)
  }

  /** The trees of a run, from the empty one on. */
  ghost predicate Steps(trees: seq<Option<Tree>>, entries: seq<(Key, PageReference)>, ok: seq<bool>, caps: Caps) {
    && |trees| == |ok| + 1 <= |entries| + 1 && trees[0].None?
    && forall i :: 0 <= i < |ok| ==> Step(trees[i], entries[i], ok[i], caps, trees[i + 1])
  }

  lemma StepsMore(trees: seq<Option<Tree>>, entries: seq<(Key, PageReference)>, ok: seq<bool>, caps: Caps,
                  r: bool, t: Option<Tree>)
    requires Steps(trees, entries, ok, caps) && |ok| < |entries|
    requires Step(trees[|ok|], entries[|ok|], r, caps, t)
    ensures Steps(trees + [t], entries, ok + [r], caps)
  {
  }

  lemma CountedBound(b: BTree)
    requires Counted(b)
    ensures b.height >= 2 ==>
              b.size + 1 >= 2 * ((b.caps.leaf / 2 + 1) * Power(b.caps.inner / 2 + 1, b.height - 2))
  {
    if b.height >= 2 { TreeKeys(b.tree, b.height, Mode(b.caps, false, true)); }
  }

  method InsertNext(b: BTree, entries: seq<(Key, PageReference)>, before: seq<bool>) returns (ok: bool)
    requires Counted(b) && Spare(b.space.Live()) > b.height && |before| < |entries|
    requires b.KeyBag() == Accepted(entries[..|before|], before)
    modifies b, b.space.pages, b.space.freeMap
    ensures Counted(b) && b.KeyBag() == Accepted(entries[..|before| + 1], before + [ok])
    ensures Step(old(TreeIn(b)), entries[|before|], ok, b.caps, TreeIn(b)) && b.Foreign() == old(b.Foreign())
  {
    var n := |before|;
    var st := InsertOne(b, entries[n].0, entries[n].1);
    ok := st == Done;
    AcceptedMore(entries, n, before + [ok]);
  }

  method EnoughPages(b: BTree) returns (ok: bool)
    requires b.SpaceOk()
    ensures ok <==> Spare(b.space.Live()) > b.height
  {
    ok := MAX_PAGE - RESERVED + 1 - b.space.pages.currentAllocated > b.height;
  }

  /** Any run of inserts into a new tree, as long as pages last: order, separators, uniform
      depth and occupancy hold in the end, an entry is accepted exactly when its key was not
      found, the size counts the accepted inserts, which are the leaf keys and separators
      together, the size bounds the height, and no page is lost. */
  method InsertAll(space: SpaceManager, caps: Caps, entries: seq<(Key, PageReference)>)
    returns (b: BTree, ok: seq<bool>, ghost trees: seq<Option<Tree>>)
    requires space.Valid() && caps.leaf >= 2 && caps.inner >= 2
    modifies space.pages, space.freeMap
    ensures fresh(b) && b.space == space && b.caps == caps && |ok| <= |entries|
    ensures Counted(b) && b.KeyBag() == Accepted(entries[..|ok|], ok)
    ensures Steps(trees, entries, ok, caps) && trees[|ok|] == TreeIn(b)
    ensures b.height >= 2 ==>
              b.size + 1 >= 2 * ((b.caps.leaf / 2 + 1) * Power(b.caps.inner / 2 + 1, b.height - 2))
    ensures |ok| < |entries| ==> Spare(space.Live()) <= b.height
    ensures b.Foreign() == old(space.Live())
  {
    b := new BTree(space, caps);
    ok, trees := InsertInto(b, entries);
    CountedBound(b);
  }

  method InsertInto(b: BTree, entries: seq<(Key, PageReference)>)
    returns (ok: seq<bool>, ghost trees: seq<Option<Tree>>)
    requires Counted(b) && b.KeyBag() == multiset{} && b.Empty()
    modifies b, b.space.pages, b.space.freeMap
    ensures Counted(b) && |ok| <= |entries| && b.KeyBag() == Accepted(entries[..|ok|], ok)
    ensures Steps(trees, entries, ok, b.caps) && trees[|ok|] == TreeIn(b)
    ensures |ok| < |entries| ==> Spare(b.space.Live()) <= b.height
    ensures b.Foreign() == old(b.Foreign())
  {
    ok, trees := [], [None];
    while |ok| < |entries|
      invariant Counted(b) && |ok| <= |entries| && b.KeyBag() == Accepted(entries[..|ok|], ok)
      invariant Steps(trees, entries, ok, b.caps) && trees[|ok|] == TreeIn(b) && b.Foreign() == old(b.Foreign())
    {
      var room := EnoughPages(b);
      if !room { break; }
      var r := InsertNext(b, entries, ok);
      StepsMore(trees, entries, ok, b.caps, r, TreeIn(b));
      ok, trees := ok + [r], trees + [TreeIn(b)];
    }
  }

  lemma AcceptedMore(entries: seq<(Key, PageReference)>, n: nat, ok: seq<bool>)
    requires n < |entries| && |ok| == n + 1
    ensures Accepted(entries[..n + 1], ok) ==
            Accepted(entries[..n], ok[..n]) + if ok[n] then multiset{entries[n].0} else multiset{}
  {
    assert entries[..n + 1][..n] == entries[..n];
  }
}
