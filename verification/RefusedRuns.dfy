/**
  A run of inserts, in descending order, that ends in a tree on which an erase is refused.
 */
module RefusedRuns {
  import opened Options
  import opened PageReferences
  import opened Trees
  import opened Inserting
  import opened Space
  import opened BTrees
  import opened Deleting
  import opened TreeShapes
  import opened TreeAudits
  import opened ReachedTrees
  import TreeRuns

  // ---------------------------------------------------------------- the pattern of separators

  /** The j-th separator from the top, when w - 1 keys lie between two. */
  function Cut(top: Key, j: nat, w: nat): Key {
    if j == 0 then top + 1 else Cut(top, j - 1, w) - w
  }

  /** The first n separators. */
  function Cuts(top: Key, n: nat, w: nat): multiset<Key> {
    if n == 0 then multiset{} else Cuts(top, n - 1, w) + multiset{Cut(top, n, w)}
  }

  lemma {:induction false} CutLess(top: Key, i: nat, j: nat, w: nat)
    requires i < j
    ensures Cut(top, j, w) + w <= Cut(top, i, w) <= top + 1
    ensures j == i + 1 ==> Cut(top, j, w) + w == Cut(top, i, w)
  {
    if i + 1 < j { CutLess(top, i, j - 1, w); } else if i > 0 { CutLess(top, i - 1, i, w); }
  }

  /** Each of them once. */
  lemma {:induction false} CutsOnce(top: Key, n: nat, w: nat, k: Key)
    requires w > 0
    ensures |Cuts(top, n, w)| == n && Cuts(top, n, w)[k] <= 1
    ensures k in Cuts(top, n, w) ==> Cut(top, n, w) <= k <= top + 1 - w
  {
    if n > 0 {
      CutsOnce(top, n - 1, w, k);
      CutLess(top, n - 1, n, w);
      if n > 1 { CutLess(top, 0, n - 1, w); }
    }
  }

  lemma {:induction false} CutIn(top: Key, j: nat, n: nat, w: nat)
    requires 1 <= j <= n
    ensures Cut(top, j, w) in Cuts(top, n, w)
  {
    if j < n { CutIn(top, j, n - 1, w); }
  }

  lemma {:induction false} CutIndex(top: Key, n: nat, w: nat, k: Key) returns (j: nat)
    requires k in Cuts(top, n, w)
    ensures 1 <= j <= n && k == Cut(top, j, w)
  {
    if k == Cut(top, n, w) { j := n; } else { j := CutIndex(top, n - 1, w, k); }
  }

  predicate PatternAt(t: Tree, top: Key, n: nat, cuts: nat, w: nat, k: Key) {
    && Keys(t)[k] == (if top - n < k <= top then 1 else 0)
    && (Lookup(t, k).Some? <==> top - n < k <= top && k !in Cuts(top, cuts, w))
  }

  /** The tree has the n keys from top down, each once, and finds all but the first cuts. */
  ghost predicate Pattern(t: Tree, top: Key, n: nat, cuts: nat, w: nat) {
    top - n < Cut(top, cuts, w) && forall k :: PatternAt(t, top, n, cuts, w, k)
  }

  lemma PatternSeps(t: Tree, h: nat, m: Mode, top: Key, n: nat, cuts: nat, w: nat)
    requires Ok(t, h, Inf, Inf, m, true) && w > 0 && Pattern(t, top, n, cuts, w)
    ensures SepBag(t) == Cuts(top, cuts, w) && |SepBag(t)| == cuts
  {
    forall k ensures SepBag(t)[k] == Cuts(top, cuts, w)[k] {
      assert PatternAt(t, top, n, cuts, w, k);
      KeyCount(t, h, Inf, Inf, m, true, k);
      CutsOnce(top, cuts, w, k);
    }
    CutsOnce(top, cuts, w, top);
  }

  // ---------------------------------------------------------------- its leaves

  function Range(lo: Key, n: nat): (ks: seq<Key>)
    ensures |ks| == n && forall i :: 0 <= i < n ==> ks[i] == lo + i
  {
    seq(n, i => lo + i)
  }

  lemma InRange(lo: Key, n: nat, k: Key)
    ensures k in Range(lo, n) <==> lo <= k < lo + n
  {
    if lo <= k < lo + n { assert Range(lo, n)[k - lo] == k; }
  }

  lemma IsRange(ks: seq<Key>, lo: Key, n: nat)
    requires Sorted(ks) && forall k :: k in ks <==> lo <= k < lo + n
    ensures ks == Range(lo, n)
  {
    forall k ensures k in ks <==> k in Range(lo, n) { InRange(lo, n, k); }
    SortedMembers(ks, Range(lo, n));
  }

  /** The number of keys in the leaf left of all separators. */
  function Lowest(top: Key, n: nat, cuts: nat, w: nat): int { Cut(top, cuts, w) - (top - n + 1) }

  /** Next to a key below all separators lies the lowest one. */
  lemma LowestBounds(t: Tree, top: Key, n: nat, cuts: nat, w: nat, a: Bound, c: Bound)
    requires w > 0 && SepBag(t) == Cuts(top, cuts, w) && top - n < Cut(top, cuts, w)
    requires Adjacent(t, Inf, Inf, a, c) && Above(a, top - n) && Below(top - n, c, false)
    ensures a == Inf && c == if cuts == 0 then Inf else At(Cut(top, cuts, w))
  {
    if a.At? { CutsOnce(top, cuts, w, a.key); }
    if c.At? { CutsOnce(top, cuts, w, c.key); }
    if cuts > 0 { CutIn(top, cuts, cuts, w); }
  }

  lemma BelowCuts(top: Key, cuts: nat, w: nat, y: Key)
    requires w > 0
    ensures y < Cut(top, cuts, w) ==> y !in Cuts(top, cuts, w) && y <= top
    ensures cuts > 0 ==> Cut(top, cuts, w) in Cuts(top, cuts, w)
  {
    CutsOnce(top, cuts, w, y);
    if cuts > 0 {
      CutIn(top, cuts, cuts, w);
      CutLess(top, 0, cuts, w);
    }
  }

  /** The leaf left of all separators. */
  lemma LowestLeaf(t: Tree, h: nat, m: Mode, top: Key, n: nat, cuts: nat, w: nat)
    requires Ok(t, h, Inf, Inf, m, true) && w > 0 && Pattern(t, top, n, cuts, w)
    ensures LeafFor(t, top - n).keys == Range(top - n + 1, Lowest(top, n, cuts, w))
  {
    var k := top - n;
    PatternSeps(t, h, m, top, n, cuts, w);
    var a, c := LeafBlock(t, h, Inf, Inf, m, true, k);
    LowestBounds(t, top, n, cuts, w, a, c);
    LowestRange(t, LeafFor(t, k), top, n, cuts, w, c);
  }

  lemma LowestRange(t: Tree, x: Tree, top: Key, n: nat, cuts: nat, w: nat, c: Bound)
    requires w > 0 && Pattern(t, top, n, cuts, w) && Between(t, x, Inf, c)
    requires c == if cuts == 0 then Inf else At(Cut(top, cuts, w))
    ensures x.keys == Range(top - n + 1, Lowest(top, n, cuts, w))
  {
    var k, z := top - n, Cut(top, cuts, w);
    forall y ensures y in x.keys <==> k + 1 <= y < z { LowestMember(t, x, top, n, cuts, w, c, y); }
    IsRange(x.keys, k + 1, z - (k + 1));
  }

  lemma LowestMember(t: Tree, x: Tree, top: Key, n: nat, cuts: nat, w: nat, c: Bound, y: Key)
    requires w > 0 && Pattern(t, top, n, cuts, w) && Between(t, x, Inf, c)
    requires c == if cuts == 0 then Inf else At(Cut(top, cuts, w))
    ensures y in x.keys <==> top - n + 1 <= y < Cut(top, cuts, w)
  {
    assert PatternAt(t, top, n, cuts, w, y);
    BelowCuts(top, cuts, w, y);
  }

  // ---------------------------------------------------------------- one more key

  function NextCuts(top: Key, n: nat, cuts: nat, leaf: nat): nat {
    if Lowest(top, n, cuts, leaf / 2 + 1) < leaf then cuts else cuts + 1
  }

  lemma MedianOf(t: Tree, k: Key, caps: Caps, ks: seq<Key>)
    requires LeafFor(t, k).keys == ks
    ensures Median(t, k, caps) == if |ks| < caps.leaf then None
                                  else Some(InsertAt(ks, LowerBound(ks, k), k)[SplitPoint(|ks| + 1)])
  {
  }

  lemma MiddleOfRange(k: Key, leaf: nat, w: nat)
    requires w == leaf / 2 + 1
    ensures LowerBound(Range(k + 1, leaf), k) == 0
    ensures InsertAt(Range(k + 1, leaf), 0, k)[SplitPoint(leaf + 1)] == k + leaf + 1 - w
  {
    LowerBoundIs(Range(k + 1, leaf), k, 0);
  }

  /** The key that goes up when the next key is inserted. */
  function Promoted(top: Key, n: nat, cuts: nat, w: nat, leaf: nat): Option<Key> {
    if Lowest(top, n, cuts, w) < leaf then None else Some(Cut(top, cuts + 1, w))
  }

  lemma NextMedian(t: Tree, caps: Caps, top: Key, n: nat, cuts: nat, w: nat)
    requires w == caps.leaf / 2 + 1 && 0 <= Lowest(top, n, cuts, w) <= caps.leaf
    requires LeafFor(t, top - n).keys == Range(top - n + 1, Lowest(top, n, cuts, w))
    ensures Median(t, top - n, caps) == Promoted(top, n, cuts, w, caps.leaf)
  {
    RangeMedian(t, top - n, caps, Lowest(top, n, cuts, w), w);
  }

  lemma RangeMedian(t: Tree, k: Key, caps: Caps, c: nat, w: nat)
    requires LeafFor(t, k).keys == Range(k + 1, c) && c <= caps.leaf && w == caps.leaf / 2 + 1
    ensures Median(t, k, caps) == if c < caps.leaf then None else Some(k + caps.leaf + 1 - w)
  {
    MedianOf(t, k, caps, Range(k + 1, c));
    if c == caps.leaf { MiddleOfRange(k, caps.leaf, w); }
  }

  lemma UpdatedBy(t: Tree, key: Key, v: PageReference, caps: Caps, k: Key, md: Option<Key>)
    requires Median(t, key, caps) == md
    ensures Updated(t, key, v, caps, k) == if md == Some(k) then None else if k == key then Some(v) else Lookup(t, k)
  {
  }

  lemma PatternStep(t: Tree, caps: Caps, top: Key, n: nat, cuts: nat, w: nat, t': Tree, v: PageReference)
    requires w == caps.leaf / 2 + 1 && Pattern(t, top, n, cuts, w) && Lowest(top, n, cuts, w) <= caps.leaf
    requires LeafFor(t, top - n).keys == Range(top - n + 1, Lowest(top, n, cuts, w))
    requires HasInserted(t, top - n, v, caps, t')
    ensures var cuts' := NextCuts(top, n, cuts, caps.leaf);
            Pattern(t', top, n + 1, cuts', w) && Lowest(top, n + 1, cuts', w) <= caps.leaf
  {
    var cuts', more := NextCuts(top, n, cuts, caps.leaf), n + 1;
    StepRoom(top, n, cuts, w, caps.leaf);
    NextMedian(t, caps, top, n, cuts, w);
    forall k ensures PatternAt(t', top, more, cuts', w, k) {
      assert PatternAt(t, top, n, cuts, w, k);
      UpdateAt(t, caps, top, n, cuts, w, t', v, k);
    }
  }

  lemma StepRoom(top: Key, n: nat, cuts: nat, w: nat, leaf: nat)
    requires w == leaf / 2 + 1 && 0 <= Lowest(top, n, cuts, w) <= leaf
    ensures 0 <= Lowest(top, n + 1, NextCuts(top, n, cuts, leaf), w) <= leaf
  {
  }

  lemma UpdateAt(t: Tree, caps: Caps, top: Key, n: nat, cuts: nat, w: nat, t': Tree, v: PageReference, k: Key)
    requires w == caps.leaf / 2 + 1 && PatternAt(t, top, n, cuts, w, k) && 0 <= Lowest(top, n, cuts, w) <= caps.leaf
    requires Median(t, top - n, caps) == Promoted(top, n, cuts, w, caps.leaf)
    requires HasInserted(t, top - n, v, caps, t')
    ensures PatternAt(t', top, n + 1, NextCuts(top, n, cuts, caps.leaf), w, k)
  {
    assert Lookup(t', k) == Updated(t, top - n, v, caps, k);
    UpdatedBy(t, top - n, v, caps, k, Promoted(top, n, cuts, w, caps.leaf));
    StepAt(t, caps.leaf, top, n, cuts, w, t', v, k);
  }

  lemma StepAt(t: Tree, leaf: nat, top: Key, n: nat, cuts: nat, w: nat, t': Tree, v: PageReference, k: Key)
    requires w == leaf / 2 + 1 && PatternAt(t, top, n, cuts, w, k) && 0 <= Lowest(top, n, cuts, w) <= leaf
    requires Keys(t') == Keys(t) + multiset{top - n}
    requires Lookup(t', k) == if Promoted(top, n, cuts, w, leaf) == Some(k) then None
                              else if k == top - n then Some(v) else Lookup(t, k)
    ensures PatternAt(t', top, n + 1, NextCuts(top, n, cuts, leaf), w, k)
  {
    StepFound(top, n, cuts, w, leaf, k, Lookup(t, k).Some?);
    assert Keys(t')[k] == Keys(t)[k] + if k == top - n then 1 else 0;
  }

  lemma StepFound(top: Key, n: nat, cuts: nat, w: nat, leaf: nat, k: Key, found: bool)
    requires w == leaf / 2 + 1 && 0 <= Lowest(top, n, cuts, w)
    requires found <==> top - n < k <= top && k !in Cuts(top, cuts, w)
    ensures Promoted(top, n, cuts, w, leaf) != Some(k) && (k == top - n || found) <==>
            top - (n + 1) < k <= top && k !in Cuts(top, NextCuts(top, n, cuts, leaf), w)
  {
    BelowCuts(top, cuts, w, top - n);
    NextCutsBag(top, n, cuts, w, leaf, k);
  }

  lemma NextCutsBag(top: Key, n: nat, cuts: nat, w: nat, leaf: nat, k: Key)
    requires w == leaf / 2 + 1
    ensures k in Cuts(top, NextCuts(top, n, cuts, leaf), w) <==>
            k in Cuts(top, cuts, w) || Promoted(top, n, cuts, w, leaf) == Some(k)
  {
  }

  // ---------------------------------------------------------------- the run

  /** The tree after n keys in descending order from top, with so many separators. */
  ghost predicate Descending(b: BTree, top: Key, n: nat, cuts: nat)
    reads b, b.space, b.space.pages, b.space.freeMap
  {
    && b.Valid(Mode(b.caps, false, true)) && !b.Empty() && cuts <= b.caps.inner + 1
    && Pattern(b.tree, top, n, cuts, b.caps.leaf / 2 + 1)
    && Lowest(top, n, cuts, b.caps.leaf / 2 + 1) <= b.caps.leaf
  }

  lemma NextReady(t: Tree, h: nat, m: Mode, top: Key, n: nat, cuts: nat, w: nat)
    requires Ok(t, h, Inf, Inf, m, true) && m.fill && m.caps.inner >= 2 && cuts <= m.caps.inner
    requires w > 0 && Pattern(t, top, n, cuts, w)
    ensures h <= 3 && Lookup(t, top - n).None?
    ensures LeafFor(t, top - n).keys == Range(top - n + 1, Lowest(top, n, cuts, w))
  {
    PatternSeps(t, h, m, top, n, cuts, w);
    LowTree(t, h, m);
    LowestLeaf(t, h, m, top, n, cuts, w);
    assert PatternAt(t, top, n, cuts, w, top - n);
  }

  method InsertNext(b: BTree, top: Key, n: nat, cuts: nat, v: PageReference) returns (cuts': nat)
    requires Descending(b, top, n, cuts) && cuts <= b.caps.inner && v.IsValid() && Spare(b.space.Live()) > 3
    modifies b, b.space.pages, b.space.freeMap
    ensures Descending(b, top, n + 1, cuts') && cuts' == NextCuts(top, n, cuts, b.caps.leaf)
    ensures Spare(b.space.Live()) >= old(Spare(b.space.Live())) - 4
  {
    ghost var m, t, h, w := Mode(b.caps, false, true), b.tree, b.height, b.caps.leaf / 2 + 1;
    NextReady(t, h, m, top, n, cuts, w);
    InsertNew(b, top - n, v);
    PatternStep(t, b.caps, top, n, cuts, w, b.tree, v);
    cuts' := NextCuts(top, n, cuts, b.caps.leaf);
  }

  // ---------------------------------------------------------------- the leaves in between

  /** The separators on both sides of the block that ends at k. */
  lemma BlockBounds(t: Tree, top: Key, cuts: nat, w: nat, j: nat, k: Key, a: Bound, c: Bound)
    requires w >= 2 && SepBag(t) == Cuts(top, cuts, w) && j < cuts && k == if j == 0 then top else Cut(top, j, w)
    requires Adjacent(t, Inf, Inf, a, c) && Above(a, k) && Below(k, c, false)
    ensures a == At(Cut(top, j + 1, w)) && c == if j == 0 then Inf else At(k)
  {
    CutIn(top, j + 1, cuts, w);
    CutLess(top, j, j + 1, w);
    if j > 0 { CutIn(top, j, cuts, w); }
    if j == 0 && c.At? { CutsOnce(top, cuts, w, c.key); }
    if a.At? {
      var i := CutIndex(top, cuts, w, a.key);
      if i <= j { CutAbove(top, i, j, w); } else if i > j + 1 { CutLess(top, j + 1, i, w); }
    }
  }

  lemma CutAbove(top: Key, i: nat, j: nat, w: nat)
    requires i <= j
    ensures Cut(top, j, w) <= Cut(top, i, w)
  {
    if i < j { CutLess(top, i, j, w); }
  }

  /** A block has no cut inside. */
  lemma BlockMember(t: Tree, x: Tree, top: Key, n: nat, cuts: nat, w: nat, j: nat, y: Key)
    requires w >= 2 && Pattern(t, top, n, cuts, w) && j < cuts
    requires Between(t, x, At(Cut(top, j + 1, w)), if j == 0 then Inf else At(Cut(top, j, w)))
    ensures y in x.keys <==> Cut(top, j + 1, w) < y < Cut(top, j, w)
  {
    assert PatternAt(t, top, n, cuts, w, y);
    CutLess(top, j, j + 1, w);
    CutAbove(top, j + 1, cuts, w);
    if j > 0 { CutIn(top, j, cuts, w); }
    if y in Cuts(top, cuts, w) {
      var i := CutIndex(top, cuts, w, y);
      if i <= j { CutAbove(top, i, j, w); } else { CutAbove(top, j + 1, i, w); }
    }
  }

  /** The leaf that ends at the j-th separator, or at the top. */
  lemma Block(t: Tree, h: nat, m: Mode, top: Key, n: nat, cuts: nat, w: nat, j: nat, k: Key)
    requires Ok(t, h, Inf, Inf, m, true) && w >= 2 && Pattern(t, top, n, cuts, w)
    requires j < cuts && k == if j == 0 then top else Cut(top, j, w)
    ensures |LeafFor(t, k).keys| == w - 1
  {
    PatternSeps(t, h, m, top, n, cuts, w);
    var a, c := LeafBlock(t, h, Inf, Inf, m, true, k);
    BlockBounds(t, top, cuts, w, j, k, a, c);
    BlockRange(t, LeafFor(t, k), top, n, cuts, w, j);
  }

  lemma BlockRange(t: Tree, x: Tree, top: Key, n: nat, cuts: nat, w: nat, j: nat)
    requires w >= 2 && Pattern(t, top, n, cuts, w) && j < cuts
    requires Between(t, x, At(Cut(top, j + 1, w)), if j == 0 then Inf else At(Cut(top, j, w)))
    ensures |x.keys| == w - 1
  {
    var z := Cut(top, j + 1, w);
    CutLess(top, j, j + 1, w);
    forall y ensures y in x.keys <==> z + 1 <= y < z + 1 + (w - 1) { BlockMember(t, x, top, n, cuts, w, j, y); }
    IsRange(x.keys, z + 1, w - 1);
  }

  // ---------------------------------------------------------------- the refused erase

  /** With one separator more than an inner node holds, erasing the highest key is refused. */
  lemma PatternRefused(t: Tree, h: nat, m: Mode, top: Key, n: nat, w: nat)
    requires Ok(t, h, Inf, Inf, m, true) && m.fill && m.caps.leaf >= 2 && w == m.caps.leaf / 2 + 1
    requires m.caps.inner >= 2 && m.caps.inner % 2 == 0 && Pattern(t, top, n, m.caps.inner + 1, w)
    ensures Lookup(t, top).Some? && Refused(t, top, m.caps)
  {
    var cuts := m.caps.inner + 1;
    PatternSeps(t, h, m, top, n, cuts, w);
    JustSplit(t, h, m);
    assert PatternAt(t, top, n, cuts, w, top);
    CutsOnce(top, cuts, w, top);
    CutLess(top, 0, cuts, w);
    var p, last := t.kids[1], |t.kids[1].keys|;
    Block(t, h, m, top, n, cuts, w, 0, top);
    LastLeaves(t, h, m, top, cuts, w);
    var j := CutIndex(top, cuts, w, p.keys[last - 1]);
    var i := CutIndex(top, cuts, w, t.keys[0]);
    if j >= i { CutAbove(top, i, j, w); }
    Block(t, h, m, top, n, cuts, w, j, p.keys[last - 1]);
    LastRefused(t, top, m.caps);
  }

  lemma LastRefused(t: Tree, top: Key, caps: Caps)
    requires t.Node? && |t.kids| == 2 && LowerBound(t.keys, top) == 1 && |t.kids[0].keys| <= caps.inner / 2
    requires var p := t.kids[1];
             && p.Node? && 0 < |p.keys| <= caps.inner / 2 && |p.kids| == |p.keys| + 1
             && LowerBound(p.keys, top) == |p.keys|
             && var last := |p.keys|;
             && p.kids[last].Leaf? && |p.kids[last].keys| <= caps.leaf / 2 && |p.kids[last - 1].keys| <= caps.leaf / 2
    ensures Refused(t, top, caps)
  {
    assert Kid(t, top) == t.kids[1] && LeafGrandparent(t, top) == t;
  }

  /** The last two leaves, found from the root. */
  lemma LastLeaves(t: Tree, h: nat, m: Mode, top: Key, cuts: nat, w: nat)
    requires Ok(t, h, Inf, Inf, m, true) && h == 3 && |t.keys| == 1 && |t.kids| == 2
    requires |t.kids[1].keys| > 0 && w >= 2 && SepBag(t) == Cuts(top, cuts, w)
    ensures t.kids[1].Node? && |t.kids[1].kids| == |t.kids[1].keys| + 1 && t.keys[0] in SepBag(t)
    ensures var p, last := t.kids[1], |t.kids[1].keys|;
            && LowerBound(t.keys, top) == 1 && LowerBound(p.keys, top) == last
            && p.kids[last].Leaf? && p.kids[last - 1].Leaf? && LeafFor(t, top) == p.kids[last]
            && t.keys[0] < p.keys[last - 1] && p.keys[last - 1] in SepBag(t)
            && LeafFor(t, p.keys[last - 1]) == p.kids[last - 1]
  {
    var p, last := t.kids[1], |t.kids[1].keys|;
    assert Ok(p, 2, LoOf(t.keys, Inf, 1), HiOf(t.keys, Inf, 1), m, false);
    KeysIn(p, 2, At(t.keys[0]), Inf, m, false);
    KidsLeaves(p, 2, At(t.keys[0]), Inf, m, false);
    var s := p.keys[last - 1];
    assert s in SepBag(p) && t.keys[0] in SepBag(t);
    KidSep(t.kids, 1, s);
    CutsOnce(top, cuts, w, s);
    CutsOnce(top, cuts, w, t.keys[0]);
    LastSteps(t, top, s);
  }

  lemma KeysIn(t: Tree, h: nat, lo: Bound, hi: Bound, m: Mode, root: bool)
    requires Ok(t, h, lo, hi, m, root) && h >= 2
    ensures Sorted(t.keys) && |t.kids| == |t.keys| + 1 && Within(t.keys, lo, hi, true)
  {
  }

  lemma LastSteps(t: Tree, top: Key, s: Key)
    requires t.Node? && |t.keys| == 1 && |t.kids| == 2 && t.kids[1].Node? && t.keys[0] < s < top
    requires var p := t.kids[1];
             && Sorted(p.keys) && |p.kids| == |p.keys| + 1 > 1 && s == p.keys[|p.keys| - 1]
             && forall i :: 0 <= i < |p.kids| ==> p.kids[i].Leaf?
    ensures var p, last := t.kids[1], |t.kids[1].keys|;
            && LowerBound(t.keys, top) == 1 && LowerBound(p.keys, top) == last
            && LeafFor(t, top) == p.kids[last] && LeafFor(t, s) == p.kids[last - 1]
  {
    var p, last := t.kids[1], |t.kids[1].keys|;
    LowerBoundIs(t.keys, top, 1);
    LowerBoundIs(p.keys, top, last);
    LowerBoundIs(t.keys, s, 1);
    LowerBoundIs(p.keys, s, last - 1);
    assert p.kids[last].Leaf? && p.kids[last - 1].Leaf?;
    assert LeafFor(p, top) == LeafFor(p.kids[last], top) == p.kids[last];
    assert LeafFor(p, s) == LeafFor(p.kids[last - 1], s) == p.kids[last - 1];
    assert LeafFor(t, top) == LeafFor(p, top) && LeafFor(t, s) == LeafFor(p, s);
  }

  // ---------------------------------------------------------------- the whole run

  /** Enough keys for one separator more than an inner node holds. */
  function KeysNeeded(caps: Caps): nat {
    CutAbove(0, 0, caps.inner + 1, caps.leaf / 2 + 1);
    1 - Cut(0, caps.inner + 1, caps.leaf / 2 + 1) + caps.leaf
  }

  lemma CutFrom(top: Key, j: nat, w: nat)
    ensures Cut(top, j, w) == top + Cut(0, j, w)
  {
  }

  lemma NotYet(top: Key, n: nat, cuts: nat, caps: Caps)
    requires cuts <= caps.inner && Lowest(top, n, cuts, caps.leaf / 2 + 1) <= caps.leaf
    ensures n < KeysNeeded(caps)
  {
    CutFrom(top, cuts, caps.leaf / 2 + 1);
    CutLess(0, cuts, caps.inner + 1, caps.leaf / 2 + 1);
  }

  /** For every leaf capacity and every even inner capacity, a run of inserts alone that reaches a
      tree on which an erase is refused: it reports failure, the key is gone, and the tree is no
      longer filled. */
  method RefusedRun(space: SpaceManager, caps: Caps, top: Key, v: PageReference) returns (b: BTree, st: Status)
    requires space.Valid() && caps.leaf >= 2 && caps.inner >= 2 && caps.inner % 2 == 0 && v.IsValid()
    requires Spare(space.Live()) > 4 * KeysNeeded(caps) + 4
    modifies space.pages, space.freeMap
    ensures fresh(b) && st == Rejected && b.Value(top) == None
    ensures !b.Valid(Mode(caps, false, true)) && b.Valid(Mode(caps, false, false))
  {
    b := new BTree(space, caps);
    Start(b, top, v);
    var n := InsertDescending(b, top, v);
    st := EraseTop(b, top, n);
  }

  method Start(b: BTree, top: Key, v: PageReference)
    requires b.Valid(Mode(b.caps, false, true)) && b.Empty() && v.IsValid() && Spare(b.space.Live()) > 0
    modifies b, b.space.pages, b.space.freeMap
    ensures Descending(b, top, 1, 0) && Spare(b.space.Live()) >= old(Spare(b.space.Live())) - 1
  {
    var st := b.Insert(top, v, Mode(b.caps, false, true));
    ghost var w := b.caps.leaf / 2 + 1;
    forall k ensures PatternAt(b.tree, top, 1, 0, w, k) { assert b.Value(k) == Lookup(b.tree, k); }
  }

  method InsertDescending(b: BTree, top: Key, v: PageReference) returns (n: nat)
    requires Descending(b, top, 1, 0) && v.IsValid() && Spare(b.space.Live()) > 4 * KeysNeeded(b.caps) + 3
    modifies b, b.space.pages, b.space.freeMap
    ensures Descending(b, top, n, b.caps.inner + 1)
  {
    ghost var spare := Spare(b.space.Live());
    var cuts: nat := 0;
    n := 1;
    while cuts <= b.caps.inner
      invariant Descending(b, top, n, cuts) && Spare(b.space.Live()) >= spare - 4 * n
      decreases KeysNeeded(b.caps) - n
    {
      NotYet(top, n, cuts, b.caps);
      cuts := InsertNext(b, top, n, cuts, v);
      n := n + 1;
    }
  }

  method EraseTop(b: BTree, top: Key, ghost n: nat) returns (st: Status)
    requires b.caps.inner % 2 == 0 && Descending(b, top, n, b.caps.inner + 1)
    modifies b, b.space.pages, b.space.freeMap
    ensures st == Rejected && b.Value(top) == None
    ensures !b.Valid(Mode(b.caps, false, true)) && b.Valid(Mode(b.caps, false, false))
  {
    ghost var m, e := Mode(b.caps, false, true), Exact;
    PatternRefused(b.tree, b.height, m, top, n, b.caps.leaf / 2 + 1);
    st, e := Erase(b, top, m);
  }
}
