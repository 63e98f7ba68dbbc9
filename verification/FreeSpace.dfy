/**
  The free-space map: a sorted vector of free extents standing for a set of pages.
 */
module FreeSpace {
  import opened Options
  import opened PageReferences
  import opened Extents

  /** Page p is in one of the extents. */
  predicate Free(s: seq<Extent>, p: PageId) {
    s != [] && (Covers(s[0], p) || Free(s[1..], p))
  }

  lemma {:induction false} FreeConcat(a: seq<Extent>, b: seq<Extent>, p: PageId)
    ensures Free(a + b, p) <==> Free(a, p) || Free(b, p)
  {
    if a == [] {
      assert a + b == b;
    } else {
      assert (a + b)[1..] == a[1..] + b;
      FreeConcat(a[1..], b, p);
    }
  }

  lemma {:induction false} FreeIff(s: seq<Extent>, p: PageId)
    ensures Free(s, p) <==> exists i :: 0 <= i < |s| && Covers(s[i], p)
  {
    if s != [] {
      FreeIff(s[1..], p);
      if i :| 0 <= i < |s| && Covers(s[i], p) {
        assert i > 0 ==> Covers(s[1..][i - 1], p);
      }
      if i :| 0 <= i < |s| - 1 && Covers(s[1..][i], p) { assert Covers(s[i + 1], p); }
    }
  }

  lemma FreeAt(s: seq<Extent>, i: nat, p: PageId)
    requires i < |s| && Covers(s[i], p)
    ensures Free(s, p)
  {
    FreeIff(s, p);
  }

  /** Valid extents in increasing order, with at least one page between neighbours. */
  predicate Canonical(s: seq<Extent>) {
    && (forall i :: 0 <= i < |s| ==> s[i].IsValid() && NoWrap(s[i]))
    && (forall i, j :: 0 <= i < j < |s| ==> s[i].start + s[i].length < s[j].start)
  }

  /** Pages a .. a+n-1 are all free. */
  ghost predicate Run(s: seq<Extent>, a: PageId, n: nat) {
    n > 0 && forall p :: a <= p < a + n ==> Free(s, p)
  }

  /** The range starts where a free extent starts and is shorter than it. */
  predicate ProperPrefix(s: seq<Extent>, r: Extent) {
    exists i :: 0 <= i < |s| && s[i].start == r.start && r.length < s[i].length
  }

  ghost predicate Meets(s: seq<Extent>, r: Extent) {
    exists p :: Covers(r, p) && Free(s, p)
  }

  /** First extent that ends after page p (std::lower_bound on the end page). */
  function FirstEndingAfter(s: seq<Extent>, p: PageId): (i: nat)
    ensures i <= |s|
    ensures forall j :: 0 <= j < i ==> s[j].EndPage() <= p
    ensures i < |s| ==> p < s[i].EndPage()
  {
    if |s| == 0 || p < s[0].EndPage() then 0 else 1 + FirstEndingAfter(s[1..], p)
  }

  /** First extent that starts at or after page p (std::lower_bound on the start page). */
  function FirstStartingFrom(s: seq<Extent>, p: PageId): (i: nat)
    ensures i <= |s|
    ensures forall j :: 0 <= j < i ==> s[j].start < p
    ensures i < |s| ==> p <= s[i].start
  {
    if |s| == 0 || p <= s[0].start then 0 else 1 + FirstStartingFrom(s[1..], p)
  }

  /** In a canonical map consecutive free pages lie in one extent. */
  lemma RunInOneExtent(s: seq<Extent>, a: PageId, n: nat) returns (i: nat)
    requires Canonical(s) && Run(s, a, n)
    ensures i < |s| && s[i].start <= a && a + n <= s[i].start + s[i].length
  {
    assert Free(s, a);
    FreeIff(s, a);
    i :| 0 <= i < |s| && Covers(s[i], a);
    FreeIff(s, s[i].start + s[i].length);
  }

  lemma ExtentIsRun(s: seq<Extent>, i: nat, a: PageId, n: nat)
    requires i < |s| && n > 0 && s[i].start <= a && a + n <= s[i].start + s[i].length
    ensures Run(s, a, n)
  {
    forall p | a <= p < a + n ensures Free(s, p) { FreeAt(s, i, p); }
  }

  // ---------------------------------------------------------------- removing pages

  /** s with extent i replaced by the given pieces. */
  function Splice(s: seq<Extent>, i: nat, pieces: seq<Extent>): seq<Extent>
    requires i < |s|
  {
    s[..i] + pieces + s[i + 1..]
  }

  lemma SpliceFree(s: seq<Extent>, i: nat, pieces: seq<Extent>, p: PageId)
    requires i < |s|
    ensures Free(Splice(s, i, pieces), p) <==> Free(s[..i], p) || Free(pieces, p) || Free(s[i + 1..], p)
    ensures Free(s, p) <==> Free(s[..i], p) || Covers(s[i], p) || Free(s[i + 1..], p)
  {
    FreeConcat(s[..i] + pieces, s[i + 1..], p);
    FreeConcat(s[..i], pieces, p);
    assert s == s[..i] + s[i..];
    FreeConcat(s[..i], s[i..], p);
  }

  lemma OnlyIn(s: seq<Extent>, i: nat, p: PageId)
    requires Canonical(s) && i < |s| && Covers(s[i], p)
    ensures !Free(s[..i], p) && !Free(s[i + 1..], p)
  {
    FreeIff(s[..i], p);
    FreeIff(s[i + 1..], p);
  }

  /** Replacing an extent by pieces that cover exactly its pages outside the range. */
  lemma SpliceTrims(s: seq<Extent>, i: nat, pieces: seq<Extent>, range: Extent)
    requires Canonical(s) && i < |s| && Canonical(pieces)
    requires forall p :: Free(pieces, p) <==> Covers(s[i], p) && !Covers(range, p)
    ensures Canonical(Splice(s, i, pieces))
    ensures forall p :: Free(Splice(s, i, pieces), p) <==> Free(s, p) && !(Covers(s[i], p) && Covers(range, p))
  {
    forall x | 0 <= x < |pieces|
      ensures s[i].start <= pieces[x].start && pieces[x].start + pieces[x].length <= s[i].start + s[i].length
    {
      FreeAt(pieces, x, pieces[x].start);
      FreeAt(pieces, x, pieces[x].start + pieces[x].length - 1);
    }
    forall p
      ensures Free(Splice(s, i, pieces), p) <==> Free(s, p) && !(Covers(s[i], p) && Covers(range, p))
    {
      SpliceFree(s, i, pieces, p);
      if Covers(s[i], p) { OnlyIn(s, i, p); }
    }
  }

  /** What removing a range from the free pages does: it fails when the range is invalid
      or meets no free page; it is set difference, except that a proper prefix of a free
      extent is reported as removed while nothing changes. */
  ghost predicate Removal(s: seq<Extent>, range: Extent, ok: bool, s': seq<Extent>) {
    && Canonical(s')
    && (ok <==> range.IsValid() && Meets(s, range))
    && (!ok || ProperPrefix(s, range) ==> s' == s)
    && (ok && !ProperPrefix(s, range) ==> forall p :: Free(s', p) <==> Free(s, p) && !Covers(range, p))
  }

  /** Where the removal loop stands: extents before i lie left of the range, pages outside
      the range are as they were, and `changed` says that some page of the range is gone. */
  ghost predicate Trimming(orig: seq<Extent>, s: seq<Extent>, i: int, range: Extent, changed: bool) {
    && 0 <= i <= |s|
    && Canonical(s)
    && (forall j :: 0 <= j < i ==> s[j].start + s[j].length <= range.start)
    && (i < |s| ==> range.start < s[i].start + s[i].length)
    && (forall p :: Free(s, p) ==> Free(orig, p))
    && (forall p :: Free(orig, p) && !Covers(range, p) ==> Free(s, p))
    && (!changed ==> s == orig)
    && (changed ==> !ProperPrefix(orig, range) && exists p :: Covers(range, p) && Free(orig, p) && !Free(s, p))
  }

  lemma TrimmingStart(s: seq<Extent>, range: Extent)
    requires Canonical(s) && NoWrap(range)
    ensures Trimming(s, s, FirstEndingAfter(s, range.start), range, false)
  {
  }

  lemma TrimmingDone(orig: seq<Extent>, s: seq<Extent>, i: nat, range: Extent, changed: bool)
    requires Trimming(orig, s, i, range, changed) && range.IsValid() && NoWrap(range)
    requires i < |s| ==> range.EndPage() <= s[i].start
    ensures Removal(orig, range, changed, s)
  {
    forall p | Covers(range, p) ensures !Free(s, p) {
      FreeIff(s, p);
      assert forall j :: i <= j < |s| ==> range.EndPage() <= s[j].start;
    }
  }

  /** One trimming step: extent i meets the range without containing it properly. */
  lemma TrimmingStep(orig: seq<Extent>, s: seq<Extent>, i: nat, range: Extent, changed: bool, pieces: seq<Extent>)
    requires Trimming(orig, s, i, range, changed) && range.IsValid() && NoWrap(range)
    requires i < |s| && s[i].start < range.start + range.length
    requires range.HasExtent(s[i]) || !s[i].HasExtent(range)
    requires |pieces| <= 1 && Canonical(pieces)
    requires forall p :: Free(pieces, p) <==> Covers(s[i], p) && !Covers(range, p)
    ensures var i' := if pieces != [] && pieces[0].start < range.start then i + 1 else i;
            Trimming(orig, Splice(s, i, pieces), i', range, true)
  {
    SpliceTrims(s, i, pieces, range);
    var t := Splice(s, i, pieces);
    var p := if s[i].start <= range.start then range.start else s[i].start;
    FreeAt(s, i, p);
    assert Covers(range, p) && Free(orig, p) && !Free(t, p);
    if !changed { NotPrefix(s, i, range); }
    TrimmedPosition(s, i, range, pieces);
  }

  lemma NotPrefix(s: seq<Extent>, i: nat, range: Extent)
    requires Canonical(s) && range.IsValid() && NoWrap(range) && i < |s|
    requires s[i].start < range.start + range.length && range.start < s[i].start + s[i].length
    requires range.HasExtent(s[i]) || !s[i].HasExtent(range)
    ensures !ProperPrefix(s, range)
  {
    forall x | 0 <= x < |s| && s[x].start == range.start ensures s[x].length <= range.length {
      if x < i { assert s[x].start + s[x].length < s[i].start; }
    }
  }

  lemma TrimmedPosition(s: seq<Extent>, i: nat, range: Extent, pieces: seq<Extent>)
    requires i < |s| && Canonical(s) && range.IsValid()
    requires forall j :: 0 <= j < i ==> s[j].start + s[j].length <= range.start
    requires range.start < s[i].start + s[i].length
    requires |pieces| <= 1 && Canonical(pieces)
    requires forall p :: Free(pieces, p) ==> !Covers(range, p)
    ensures var i' := if pieces != [] && pieces[0].start < range.start then i + 1 else i;
            var t := Splice(s, i, pieces);
            && (forall j :: 0 <= j < i' ==> t[j].start + t[j].length <= range.start)
            && (i' < |t| ==> range.start < t[i'].start + t[i'].length)
  {
    FreeIff(pieces, range.start);
    assert Covers(range, range.start);
  }

  lemma TrimWhole(orig: seq<Extent>, s: seq<Extent>, i: nat, range: Extent, changed: bool)
    requires Trimming(orig, s, i, range, changed) && range.IsValid() && NoWrap(range)
    requires i < |s| && s[i].start < range.start + range.length && range.HasExtent(s[i])
    ensures Trimming(orig, Splice(s, i, []), i, range, true)
  {
    TrimmingStep(orig, s, i, range, changed, []);
  }

  lemma TrimEnd(orig: seq<Extent>, s: seq<Extent>, i: nat, range: Extent, changed: bool)
    requires Trimming(orig, s, i, range, changed) && range.IsValid() && NoWrap(range)
    requires i < |s| && !s[i].HasExtent(range)
    requires s[i].start < range.start < s[i].EndPage()
    ensures Trimming(orig, s[i := Extent(s[i].start, range.start - s[i].start)], i + 1, range, true)
  {
    var pieces := [Extent(s[i].start, range.start - s[i].start)];
    assert s[i := pieces[0]] == Splice(s, i, pieces);
    TrimmingStep(orig, s, i, range, changed, pieces);
  }

  lemma TrimStart(orig: seq<Extent>, s: seq<Extent>, i: nat, range: Extent, changed: bool)
    requires Trimming(orig, s, i, range, changed) && range.IsValid() && NoWrap(range)
    requires i < |s| && !s[i].HasExtent(range) && !range.HasExtent(s[i])
    requires range.start <= s[i].start < range.EndPage()
    ensures var rest := s[i].length - (range.EndPage() - s[i].start);
            rest > 0 && Trimming(orig, Splice(s, i, [Extent(range.EndPage(), rest)]), i, range, true)
  {
    var pieces := [Extent(range.EndPage(), s[i].length - (range.EndPage() - s[i].start))];
    TrimmingStep(orig, s, i, range, changed, pieces);
  }

  /** What one turn of the removal loop does. */
  datatype Turn = Stop(s: seq<Extent>, ok: bool) | Go(s: seq<Extent>, i: nat, changed: bool)

  function TurnAt(s: seq<Extent>, i: nat, range: Extent, changed: bool): (t: Turn)
    requires i < |s| && s[i].start < range.EndPage()
    ensures t.Go? ==> t.i <= |t.s|
    ensures t.Go? ==>
              || |t.s| - t.i < |s| - i
              || (|t.s| - t.i == |s| - i && t.i < |t.s| && range.EndPage() <= t.s[t.i].start)
  {
    var current := s[i];
    if range.HasExtent(current) then
      Go(Splice(s, i, []), i, true)
    else if current.HasExtent(range) then
      (match current.Split(range.start)
       case None => Stop(s, true)
       case Some((left, rightEnd)) =>
         var rightLen := rightEnd.length - range.length;
         Stop(Splice(s, i, if rightLen > 0 then [left, Extent(range.EndPage(), rightLen)] else [left]), true))
    else if current.start < range.start && range.start < current.EndPage() then
      Go(s[i := Extent(current.start, range.start - current.start)], i + 1, true)
    else if range.start <= current.start then
      var remaining := current.length - (range.EndPage() - current.start);
      Go(Splice(s, i, if remaining > 0 then [Extent(range.EndPage(), remaining)] else []), i, true)
    else Go(s, i + 1, changed)
  }

  /** The removal loop from extent i on, with what it returns. */
  function RemoveFrom(s: seq<Extent>, i: nat, range: Extent, changed: bool): (seq<Extent>, bool)
    requires i <= |s|
    decreases |s| - i, i < |s| && s[i].start < range.EndPage()
  {
    if i == |s| || range.EndPage() <= s[i].start then (s, changed) else
    match TurnAt(s, i, range, changed)
    case Stop(s', ok) => (s', ok)
    case Go(s', i', changed') => RemoveFrom(s', i', range, changed')
  }

  lemma TrimMiddle(orig: seq<Extent>, s: seq<Extent>, i: nat, range: Extent, changed: bool)
    requires Trimming(orig, s, i, range, changed) && range.IsValid() && NoWrap(range)
    requires i < |s| && s[i].HasExtent(range) && !range.HasExtent(s[i]) && s[i].start < range.EndPage()
    ensures var r := TurnAt(s, i, range, changed); r.Stop? && Removal(orig, range, r.ok, r.s)
  {
    forall p | Covers(range, p) ensures Free(s, p) { FreeAt(s, i, p); }
    assert Covers(range, range.start) && s == orig;
    if range.start > s[i].start { CutMiddle(s, i, range, changed); }
  }

  lemma CutMiddle(s: seq<Extent>, i: nat, range: Extent, changed: bool)
    requires Canonical(s) && range.IsValid() && NoWrap(range) && i < |s|
    requires s[i].start < range.start && range.EndPage() <= s[i].EndPage()
    ensures var r := TurnAt(s, i, range, changed);
            && r.Stop? && r.ok && Canonical(r.s)
            && forall p :: Free(r.s, p) <==> Free(s, p) && !Covers(range, p)
    ensures !ProperPrefix(s, range)
  {
    var pieces := AroundRange(s[i], range);
    AroundCovers(s[i], range);
    SpliceTrims(s, i, pieces, range);
    TurnMiddle(s, i, range, changed);
    assert forall p :: Covers(range, p) ==> Covers(s[i], p);
    NoPrefixInside(s, i, range);
  }

  lemma TurnMiddle(s: seq<Extent>, i: nat, range: Extent, changed: bool)
    requires i < |s| && s[i].IsValid() && NoWrap(s[i]) && range.IsValid() && NoWrap(range)
    requires s[i].start < range.start && range.EndPage() <= s[i].EndPage()
    ensures TurnAt(s, i, range, changed) == Stop(Splice(s, i, AroundRange(s[i], range)), true)
  {
    assert s[i].Split(range.start) ==
           Some((Extent(s[i].start, range.start - s[i].start), Extent(range.start, s[i].EndPage() - range.start)));
  }

  lemma NoPrefixInside(s: seq<Extent>, i: nat, range: Extent)
    requires Canonical(s) && i < |s| && Covers(s[i], range.start) && s[i].start < range.start
    ensures !ProperPrefix(s, range)
  {
    forall x | 0 <= x < |s| ensures s[x].start != range.start {
      if x < i { assert s[x].start + s[x].length < s[i].start; }
    }
  }

  function AroundRange(e: Extent, range: Extent): seq<Extent>
    requires e.start < range.start && range.EndPage() <= e.EndPage()
  {
    var left, rest := Extent(e.start, range.start - e.start), e.EndPage() - range.EndPage();
    if rest > 0 then [left, Extent(range.EndPage(), rest)] else [left]
  }

  lemma AroundCovers(e: Extent, range: Extent)
    requires e.IsValid() && NoWrap(e) && range.IsValid() && NoWrap(range)
    requires e.start < range.start && range.EndPage() <= e.EndPage()
    ensures Canonical(AroundRange(e, range))
    ensures forall p :: Free(AroundRange(e, range), p) <==> Covers(e, p) && !Covers(range, p)
  {
    var pieces := AroundRange(e, range);
    forall p ensures Free(pieces, p) <==> Covers(e, p) && !Covers(range, p) { FreeIff(pieces, p); }
  }

  /** Every turn of the loop keeps the loop's invariant, or ends with the right answer. */
  lemma TurnKeeps(orig: seq<Extent>, s: seq<Extent>, i: nat, range: Extent, changed: bool)
    requires Trimming(orig, s, i, range, changed) && range.IsValid() && NoWrap(range)
    requires i < |s| && s[i].start < range.EndPage()
    ensures match TurnAt(s, i, range, changed)
            case Stop(s', ok) => Removal(orig, range, ok, s')
            case Go(s', i', changed') => Trimming(orig, s', i', range, changed')
  {
    if range.HasExtent(s[i]) {
      TrimWhole(orig, s, i, range, changed);
    } else if s[i].HasExtent(range) {
      TrimMiddle(orig, s, i, range, changed);
    } else if s[i].start < range.start {
      TrimEnd(orig, s, i, range, changed);
    } else {
      TrimStart(orig, s, i, range, changed);
    }
  }

  lemma {:induction false} RemoveFromIsRemoval(orig: seq<Extent>, s: seq<Extent>, i: nat, range: Extent, changed: bool)
    requires Trimming(orig, s, i, range, changed) && range.IsValid() && NoWrap(range)
    ensures var r := RemoveFrom(s, i, range, changed); Removal(orig, range, r.1, r.0)
    decreases |s| - i, i < |s| && s[i].start < range.EndPage()
  {
    if i == |s| || range.EndPage() <= s[i].start {
      TrimmingDone(orig, s, i, range, changed);
    } else {
      TurnKeeps(orig, s, i, range, changed);
      match TurnAt(s, i, range, changed)
      case Stop(_, _) =>
      case Go(s', i', changed') => RemoveFromIsRemoval(orig, s', i', range, changed');
    }
  }

  lemma RemoveRangeIsRemoval(s: seq<Extent>, range: Extent)
    requires Canonical(s) && NoWrap(range)
    ensures !range.IsValid() || s == [] ==> Removal(s, range, false, s)
    ensures range.IsValid() ==>
              var r := RemoveFrom(s, FirstEndingAfter(s, range.start), range, false); Removal(s, range, r.1, r.0)
  {
    if range.IsValid() {
      TrimmingStart(s, range);
      RemoveFromIsRemoval(s, s, FirstEndingAfter(s, range.start), range, false);
    }
  }

  // ---------------------------------------------------------------- adding pages

  /** Canonical up to extent i - 1, which may overlap or touch what follows it. */
  predicate Joinable(s: seq<Extent>, i: nat) {
    && 0 < i <= |s|
    && (forall x :: 0 <= x < |s| ==> s[x].IsValid() && NoWrap(s[x]))
    && (forall x, y :: 0 <= x < y < |s| && (y < i || i <= x) ==> s[x].start + s[x].length < s[y].start)
    && (forall x :: i <= x < |s| ==> s[i - 1].start <= s[x].start)
  }

  function Joined(s: seq<Extent>, i: nat, m: Extent): seq<Extent>
    requires 0 < i < |s|
  {
    s[..i - 1] + [m] + s[i + 1..]
  }

  /** The right-merge loop at position i. */
  function MergeRight(s: seq<Extent>, i: nat): seq<Extent>
    requires 0 < i <= |s|
    decreases |s| - i
  {
    if i == |s| || !s[i - 1].CanMerge(s[i]) then s else
    match Merge(s[i - 1], s[i])
    case None => s
    case Some(m) => MergeRight(Joined(s, i, m), i)
  }

  function AddRange(s: seq<Extent>, range: Extent): seq<Extent> {
    var i := FirstStartingFrom(s, range.start);
    if i > 0 && s[i - 1].CanMerge(range) && Merge(s[i - 1], range).Some?
    then MergeRight(s[i - 1 := Merge(s[i - 1], range).value], i)
    else MergeRight(s[..i] + [range] + s[i..], i + 1)
  }

  lemma JoinedFree(s: seq<Extent>, i: nat, m: Extent, p: PageId)
    requires 0 < i < |s|
    requires Covers(m, p) <==> Covers(s[i - 1], p) || Covers(s[i], p)
    ensures Free(Joined(s, i, m), p) <==> Free(s, p)
  {
    FreeConcat(s[..i - 1], [m] + s[i + 1..], p);
    assert Joined(s, i, m) == s[..i - 1] + ([m] + s[i + 1..]);
    FreeConcat(s[..i - 1], s[i - 1..], p);
    assert s == s[..i - 1] + s[i - 1..];
    assert s[i - 1..][1..] == s[i..] && ([m] + s[i + 1..])[1..] == s[i + 1..];
  }

  lemma {:induction false} MergeRightCanonical(s: seq<Extent>, i: nat)
    requires Joinable(s, i)
    ensures Canonical(MergeRight(s, i))
    ensures forall p :: Free(MergeRight(s, i), p) <==> Free(s, p)
    decreases |s| - i
  {
    if i < |s| && s[i - 1].CanMerge(s[i]) {
      MergeCovers(s[i - 1], s[i]);
      var m := Merge(s[i - 1], s[i]).value;
      MergeRightCanonical(Joined(s, i, m), i);
      forall p ensures Free(MergeRight(s, i), p) <==> Free(s, p) { JoinedFree(s, i, m, p); }
    }
  }

  /** Adding a range is set union, and keeps the map canonical. */
  lemma AddRangeIsUnion(s: seq<Extent>, range: Extent)
    requires Canonical(s) && range.IsValid() && NoWrap(range)
    ensures Canonical(AddRange(s, range))
    ensures forall p :: Free(AddRange(s, range), p) <==> Free(s, p) || Covers(range, p)
  {
    var i := FirstStartingFrom(s, range.start);
    if i > 0 && s[i - 1].CanMerge(range) {
      MergeCovers(s[i - 1], range);
      AddMerged(s, range, i, Merge(s[i - 1], range).value);
    } else {
      AddInserted(s, range, i);
    }
  }

  lemma AddMerged(s: seq<Extent>, range: Extent, i: nat, m: Extent)
    requires Canonical(s) && 0 < i <= |s| && m.IsValid() && NoWrap(m) && s[i - 1].start <= m.start
    requires i < |s| ==> m.start <= s[i].start
    requires forall p :: Covers(m, p) <==> Covers(s[i - 1], p) || Covers(range, p)
    ensures Canonical(MergeRight(s[i - 1 := m], i))
    ensures forall p :: Free(MergeRight(s[i - 1 := m], i), p) <==> Free(s, p) || Covers(range, p)
  {
    var t := s[i - 1 := m];
    assert Joinable(t, i) by { MergedJoinable(s, i, m); }
    MergeRightCanonical(t, i);
    forall p ensures Free(MergeRight(t, i), p) <==> Free(s, p) || Covers(range, p) {
      UpdatedFree(s, i - 1, m, p);
      SpliceFree(s, i - 1, [], p);
    }
  }

  lemma MergedJoinable(s: seq<Extent>, i: nat, m: Extent)
    requires Canonical(s) && 0 < i <= |s| && m.IsValid() && NoWrap(m) && s[i - 1].start <= m.start
    requires i < |s| ==> m.start <= s[i].start
    ensures Joinable(s[i - 1 := m], i)
  {
    forall x | i <= x < |s| ensures m.start <= s[x].start {
      if x > i { assert s[i].start + s[i].length < s[x].start; }
    }
  }

  lemma UpdatedFree(s: seq<Extent>, i: nat, m: Extent, p: PageId)
    requires i < |s|
    ensures Free(s[i := m], p) <==> Free(s[..i], p) || Covers(m, p) || Free(s[i + 1..], p)
  {
    assert s[i := m] == Splice(s, i, [m]);
    SpliceFree(s, i, [m], p);
  }

  lemma AddInserted(s: seq<Extent>, range: Extent, i: nat)
    requires Canonical(s) && range.IsValid() && NoWrap(range) && i <= |s|
    requires i > 0 ==> s[i - 1].start < range.start && !s[i - 1].CanMerge(range)
    requires i < |s| ==> range.start <= s[i].start
    ensures var t := s[..i] + [range] + s[i..];
            && Canonical(MergeRight(t, i + 1))
            && forall p :: Free(MergeRight(t, i + 1), p) <==> Free(s, p) || Covers(range, p)
  {
    var t := s[..i] + [range] + s[i..];
    InsertJoinable(s, range, i, t);
    MergeRightCanonical(t, i + 1);
    forall p ensures Free(t, p) <==> Free(s, p) || Covers(range, p) { InsertedFree(s, i, range, p); }
  }

  lemma InsertJoinable(s: seq<Extent>, range: Extent, i: nat, t: seq<Extent>)
    requires Canonical(s) && range.IsValid() && NoWrap(range) && i <= |s| && |t| == |s| + 1
    requires i > 0 ==> s[i - 1].start + s[i - 1].length < range.start
    requires i < |s| ==> range.start <= s[i].start
    requires t[i] == range
    requires forall x :: 0 <= x < i ==> t[x] == s[x]
    requires forall x :: i < x < |t| ==> t[x] == s[x - 1]
    ensures Joinable(t, i + 1)
  {
    forall x, y | 0 <= x < y < |t| && (y < i + 1 || i + 1 <= x) ensures t[x].start + t[x].length < t[y].start {
      if y == i && x < i - 1 { assert s[x].start + s[x].length < s[i - 1].start; }
    }
    forall x | i + 1 <= x < |t| ensures range.start <= t[x].start {
      if x > i + 1 { assert s[i].start + s[i].length < s[x - 1].start; }
    }
  }

  lemma InsertedFree(s: seq<Extent>, i: nat, range: Extent, p: PageId)
    requires i <= |s|
    ensures Free(s[..i] + [range] + s[i..], p) <==> Free(s, p) || Covers(range, p)
  {
    FreeConcat(s[..i] + [range], s[i..], p);
    FreeConcat(s[..i], [range], p);
    FreeConcat(s[..i], s[i..], p);
    assert s == s[..i] + s[i..];
  }

  // ---------------------------------------------------------------- searching and counting

  lemma NoRun(s: seq<Extent>, n: nat)
    requires Canonical(s)
    requires n == 0 || forall j :: 0 <= j < |s| ==> s[j].length < n
    ensures forall a :: !Run(s, a, n)
  {
    forall a | Run(s, a, n) ensures false { var i := RunInOneExtent(s, a, n); }
  }

  lemma LowestRun(s: seq<Extent>, i: nat, n: nat)
    requires Canonical(s) && i < |s| && 0 < n <= s[i].length
    requires forall j :: 0 <= j < i ==> s[j].length < n
    ensures Run(s, s[i].start, n) && forall a :: Run(s, a, n) ==> s[i].start <= a
  {
    ExtentIsRun(s, i, s[i].start, n);
    forall a | Run(s, a, n) ensures s[i].start <= a {
      var j := RunInOneExtent(s, a, n);
      if i < j { assert s[i].start + s[i].length < s[j].start; }
    }
  }

  lemma HighestRun(s: seq<Extent>, i: nat, n: nat)
    requires Canonical(s) && i < |s| && 0 < n <= s[i].length
    requires forall j :: i < j < |s| ==> s[j].length < n
    ensures var a := s[i].start + (s[i].length - n);
            && Run(s, a, n) && (forall b: PageId :: Run(s, b, n) ==> b <= a)
            && !ProperPrefix(s, Extent(a, n))
  {
    var a := s[i].start + (s[i].length - n);
    ExtentIsRun(s, i, a, n);
    forall b: PageId | Run(s, b, n) ensures b <= a {
      var j := RunInOneExtent(s, b, n);
      if j < i { assert s[j].start + s[j].length < s[i].start; }
    }
    forall j | 0 <= j < |s| && s[j].start == a ensures s[j].length <= n {
    }
  }

  /** The free pages as a set. */
  ghost function FreePages(s: seq<Extent>): set<PageId> {
    set p | 0 <= p < U32 && Free(s, p)
  }

  function Interval(a: PageId, n: nat): (r: set<PageId>)
    ensures |r| == n && forall p :: p in r <==> a <= p < a + n
  {
    if n == 0 then {} else Interval(a, n - 1) + {a + n - 1}
  }

  lemma CountOneMore(s: seq<Extent>, i: nat)
    requires Canonical(s) && i < |s|
    ensures |FreePages(s[..i + 1])| == |FreePages(s[..i])| + s[i].length
  {
    var a, b, c := FreePages(s[..i]), Interval(s[i].start, s[i].length), FreePages(s[..i + 1]);
    assert s[..i + 1] == s[..i] + [s[i]];
    forall p: nat ensures p in c <==> p in a || p in b {
      FreeConcat(s[..i], [s[i]], p);
      assert Free(s[..i + 1], p) <==> Free(s[..i], p) || Covers(s[i], p);
    }
    assert c == a + b;
    forall p | p in b ensures p !in a { OnlyIn(s, i, p); }
  }

  class FreeSpaceMap {
    var extents: seq<Extent>

    constructor ()
      ensures extents == []
    {
      extents := [];
    }

    method Initialize(start: PageId, length: nat)
      modifies this
      ensures extents == if length > 0 then [Extent(start, length)] else []
    {
      extents := [];
      if length > 0 { extents := [Extent(start, length)]; }
    }

    method MarkAllocated(range: Extent) returns (ok: bool)
      requires Canonical(extents) && NoWrap(range)
      modifies this
      ensures Removal(old(extents), range, ok, extents)
    {
      RemoveRangeIsRemoval(extents, range);
      if !range.IsValid() || extents == [] { return false; }
      ok := Remove(range, FirstEndingAfter(extents, range.start));
    }

    /** The loop of MarkAllocated, from the first extent that may overlap the range. */
    method Remove(range: Extent, it: nat) returns (changed: bool)
      requires it <= |extents|
      modifies this
      ensures (extents, changed) == RemoveFrom(old(extents), it, range, false)
    {
      var i := it;
      changed := false;
      while i < |extents| && extents[i].start < range.EndPage()
        invariant 0 <= i <= |extents|
        invariant RemoveFrom(extents, i, range, changed) == RemoveFrom(old(extents), it, range, false)
        decreases |extents| - i, i < |extents| && extents[i].start < range.EndPage()
      {
        var current := extents[i];
        if range.HasExtent(current) {
          extents := Splice(extents, i, []);
          changed := true;
        } else if current.HasExtent(range) {
          var parts := current.Split(range.start);
          if parts.Some? {
            var left, rightEnd := parts.value.0, parts.value.1;
            var rightLen := rightEnd.length - range.length;
            extents := Splice(extents, i, if rightLen > 0 then [left, Extent(range.EndPage(), rightLen)] else [left]);
          }
          return true;
        } else if current.start < range.start && range.start < current.EndPage() {
          extents := extents[i := Extent(current.start, range.start - current.start)];
          i := i + 1;
          changed := true;
        } else if range.start <= current.start && current.start < range.EndPage() {
          var overlap := range.EndPage() - current.start;
          var remaining := current.length - overlap;
          extents := Splice(extents, i, if remaining > 0 then [Extent(range.EndPage(), remaining)] else []);
          changed := true;
        } else {
          i := i + 1;
        }
      }
    }

    /** Adds the range to the free pages, merging it with what it overlaps or touches. */
    method MarkFree(range: Extent) returns (ok: bool)
      requires Canonical(extents) && NoWrap(range)
      modifies this
      ensures Canonical(extents)
      ensures ok <==> range.length > 0 && range.start != 0xFFFF_FFFF
      ensures !ok ==> extents == old(extents)
      ensures ok ==> forall p :: Free(extents, p) <==> Free(old(extents), p) || Covers(range, p)
    {
      if !range.IsValid() { return false; }
      AddRangeIsUnion(extents, range);
      var it := FirstStartingFrom(extents, range.start);
      if it > 0 && extents[it - 1].CanMerge(range) {
        var merged := Merge(extents[it - 1], range);
        if merged.Some? {
          extents := extents[it - 1 := merged.value];
          MergeFollowing(it);
          return true;
        }
      }
      extents := extents[..it] + [range] + extents[it..];
      MergeFollowing(it + 1);
      return true;
    }

    /** Merges the extent before position it with those that follow, as far as they overlap
        or touch it. */
    method MergeFollowing(it: nat)
      requires 0 < it <= |extents|
      modifies this
      ensures extents == MergeRight(old(extents), it)
    {
      while it < |extents| && extents[it - 1].CanMerge(extents[it]) && Merge(extents[it - 1], extents[it]).Some?
        invariant 0 < it <= |extents| && MergeRight(extents, it) == MergeRight(old(extents), it)
        decreases |extents|
      {
        extents := Joined(extents, it, Merge(extents[it - 1], extents[it]).value);
      }
    }

    /** The lowest, or the highest, run of `length` free pages; an invalid extent exactly
        when there is no such run. */
    method FindFreeRange(length: nat, preferBeginning: bool) returns (r: Extent)
      requires Canonical(extents)
      ensures r.IsValid() <==> exists a :: Run(extents, a, length)
      ensures r.IsValid() ==> r.length == length && Run(extents, r.start, length)
      ensures r.IsValid() && preferBeginning ==> forall a: PageId :: Run(extents, a, length) ==> r.start <= a
      ensures r.IsValid() && !preferBeginning ==> forall a: PageId :: Run(extents, a, length) ==> a <= r.start
      ensures r.IsValid() && !preferBeginning ==> !ProperPrefix(extents, r)
      ensures r.IsValid() ==> NoWrap(r)
    {
      if extents == [] || length == 0 {
        NoRun(extents, length);
        return NO_EXTENT;
      }
      if preferBeginning {
        var i := 0;
        while i < |extents|
          invariant 0 <= i <= |extents|
          invariant forall j :: 0 <= j < i ==> extents[j].length < length
        {
          if extents[i].length >= length {
            LowestRun(extents, i, length);
            return Extent(extents[i].start, length);
          }
          i := i + 1;
        }
      } else {
        var i := |extents|;
        while i > 0
          invariant 0 <= i <= |extents|
          invariant forall j :: i <= j < |extents| ==> extents[j].length < length
        {
          i := i - 1;
          if extents[i].length >= length {
            HighestRun(extents, i, length);
            return Extent(extents[i].start + (extents[i].length - length), length);
          }
        }
      }
      NoRun(extents, length);
      return NO_EXTENT;
    }

    /** The first extent of exactly this length. */
    method FindExactRange(length: nat) returns (r: Extent)
      requires Canonical(extents)
      ensures r.IsValid() ==> r in extents && r.length == length && NoWrap(r)
      ensures r.IsValid() ==> forall e :: e in extents && e.length == length ==> r.start <= e.start
      ensures r.IsValid() ==> !ProperPrefix(extents, r) && Run(extents, r.start, length)
      ensures !r.IsValid() ==> forall e :: e in extents ==> e.length != length
    {
      var i := 0;
      while i < |extents|
        invariant 0 <= i <= |extents|
        invariant forall j :: 0 <= j < i ==> extents[j].length != length
      {
        if extents[i].length == length {
          ExtentIsRun(extents, i, extents[i].start, length);
          return extents[i];
        }
        i := i + 1;
      }
      return NO_EXTENT;
    }

    /** The start of the smallest sufficient extent, the first one among equals. */
    method FindBestRange(length: nat) returns (r: Extent)
      requires Canonical(extents)
      ensures r.IsValid() <==> exists a :: Run(extents, a, length)
      ensures r.IsValid() ==> r.length == length && NoWrap(r) && Run(extents, r.start, length)
      ensures r.IsValid() ==>
                exists i ::
                  && 0 <= i < |extents| && extents[i].start == r.start && extents[i].length >= length
                  && (forall j :: 0 <= j < |extents| && extents[j].length >= length ==>
                        extents[i].length <= extents[j].length)
                  && (forall j :: 0 <= j < i ==>
                        extents[j].length < length || extents[i].length < extents[j].length)
    {
      var best := -1;
      var i := 0;
      while i < |extents|
        invariant 0 <= i <= |extents| && -1 <= best < i
        invariant best == -1 ==> forall j :: 0 <= j < i ==> extents[j].length < length
        invariant best >= 0 ==> extents[best].length >= length
        invariant best >= 0 ==>
                    forall j :: 0 <= j < i && extents[j].length >= length ==> extents[best].length <= extents[j].length
        invariant best >= 0 ==>
                    forall j :: 0 <= j < best ==> extents[j].length < length || extents[best].length < extents[j].length
      {
        if extents[i].length >= length && (best < 0 || extents[i].length < extents[best].length) {
          best := i;
        }
        i := i + 1;
      }
      if best >= 0 {
        if length > 0 { ExtentIsRun(extents, best, extents[best].start, length); }
        return Extent(extents[best].start, length);
      }
      NoRun(extents, length);
      return NO_EXTENT;
    }

    /** Membership by binary search on the extent starts. */
    method Contains(page: PageId) returns (r: bool)
      requires Canonical(extents)
      ensures r <==> Free(extents, page)
    {
      FreeIff(extents, page);
      var it := FirstStartingFrom(extents, page);
      if it < |extents| && extents[it].start == page { return true; }
      if it > 0 {
        assert forall j :: 0 <= j < it - 1 ==> extents[j].start + extents[j].length < extents[it - 1].start;
        if extents[it - 1].HasPage(page) { return true; }
      }
      return false;
    }

    /** Accepts exactly the canonical maps, once there are two extents or more; a map of
        one extent is accepted unseen. */
    method Validate() returns (ok: bool)
      requires forall e :: e in extents ==> NoWrap(e)
      ensures ok <==> |extents| < 2 || Canonical(extents)
    {
      var i := 1;
      while i < |extents|
        invariant 1 <= i
        invariant |extents| >= 2 ==> i <= |extents| && (i > 1 ==> Canonical(extents[..i]))
      {
        var prev, curr := extents[i - 1], extents[i];
        if !prev.IsValid() || !curr.IsValid() || prev.start >= curr.start ||
           prev.Intersects(curr) || prev.AdjacentTo(curr)
        {
          return false;
        }
        assert extents[..i + 1] == extents[..i] + [curr];
        i := i + 1;
      }
      if |extents| >= 2 { assert extents[..|extents|] == extents; }
      return true;
    }

    /** The number of free pages. */
    method CountFree() returns (total: nat)
      requires Canonical(extents)
      ensures total == |FreePages(extents)|
    {
      total := 0;
      var i := 0;
      while i < |extents|
        invariant 0 <= i <= |extents|
        invariant total == |FreePages(extents[..i])|
      {
        CountOneMore(extents, i);
        total := total + extents[i].length;
        i := i + 1;
      }
      assert extents[..i] == extents;
    }
  }
}
