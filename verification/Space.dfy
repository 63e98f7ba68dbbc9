/**
  Page and extent allocation: the page allocator's free list, the free-space map beside
  it, and the extent allocator with its policies.
 */
module Space {
  import opened PageReferences
  import opened Extents
  import opened FreeSpace

  const RESERVED: nat := 8
  const MAX_PAGE: nat := 1024 * 1024 - 1

  predicate Managed(p: PageId) { RESERVED <= p <= MAX_PAGE }

  // ---------------------------------------------------------------- pages

  ghost predicate AllocatorOk(freeList: seq<PageId>, next: nat) {
    && RESERVED <= next <= MAX_PAGE + 1
    && (forall i :: 0 <= i < |freeList| ==> RESERVED <= freeList[i] < next)
    && (forall i, j :: 0 <= i < j < |freeList| ==> freeList[i] != freeList[j])
  }

  /** The pages handed out and not given back. */
  ghost function LivePages(freeList: seq<PageId>, next: nat): set<PageId> {
    set p | RESERVED <= p < next && p !in freeList
  }

  /** The page freed last is taken again. */
  lemma TakeFreed(freeList: seq<PageId>, next: nat)
    requires AllocatorOk(freeList, next) && freeList != []
    ensures var n := |freeList| - 1;
            && AllocatorOk(freeList[..n], next) && Managed(freeList[n]) && freeList[n] !in LivePages(freeList, next)
            && LivePages(freeList[..n], next) == LivePages(freeList, next) + {freeList[n]}
            && |LivePages(freeList[..n], next)| == |LivePages(freeList, next)| + 1
  {
    var n := |freeList| - 1;
    assert freeList == freeList[..n] + [freeList[n]];
    assert LivePages(freeList[..n], next) == LivePages(freeList, next) + {freeList[n]};
  }

  /** With nothing freed, the next page is taken if there is one. */
  lemma TakeNext(next: nat)
    requires AllocatorOk([], next)
    ensures next > MAX_PAGE ==> forall p :: Managed(p) ==> p in LivePages([], next)
    ensures next <= MAX_PAGE ==>
              && AllocatorOk([], next + 1) && next !in LivePages([], next)
              && LivePages([], next + 1) == LivePages([], next) + {next}
              && |LivePages([], next + 1)| == |LivePages([], next)| + 1
  {
    if next <= MAX_PAGE { assert LivePages([], next + 1) == LivePages([], next) + {next}; }
  }

  class PageAllocator {
    var freeList: seq<PageId>
    var nextPageId: nat
    var currentAllocated: nat
    var peakAllocated: nat

    ghost predicate Valid() reads this {
      && AllocatorOk(freeList, nextPageId)
      && currentAllocated == |Live()| <= peakAllocated
    }

    ghost function Live(): set<PageId> reads this { LivePages(freeList, nextPageId) }

    constructor ()
      ensures Valid() && Live() == {} && peakAllocated == 0 && freeList == [] && nextPageId == 8
    {
      freeList, nextPageId, currentAllocated, peakAllocated := [], RESERVED, 0, 0;
      assert LivePages([], RESERVED) == {};
    }

    /** A page that was not live, and never a reserved one; the invalid page exactly when
        every managed page is live.  The counters are the live count and its running
        maximum. */
    method Allocate() returns (id: PageId)
      requires Valid()
      modifies this
      ensures Valid()
      ensures id == INVALID_PAGE <==> forall p :: Managed(p) ==> p in old(Live())
      ensures id == INVALID_PAGE ==> Live() == old(Live()) && peakAllocated == old(peakAllocated)
      ensures id != INVALID_PAGE ==> Managed(id) && id !in old(Live()) && Live() == old(Live()) + {id}
      ensures id != INVALID_PAGE ==>
                peakAllocated == if |Live()| > old(peakAllocated) then |Live()| else old(peakAllocated)
      ensures old(freeList) != [] ==>
                && id == old(freeList)[|old(freeList)| - 1] && freeList == old(freeList)[..|old(freeList)| - 1]
                && nextPageId == old(nextPageId)
      ensures old(freeList) == [] && id != INVALID_PAGE ==>
                id == old(nextPageId) && freeList == [] && nextPageId == id + 1
    {
      if freeList != [] {
        TakeFreed(freeList, nextPageId);
        var n := |freeList| - 1;
        id := freeList[n];
        freeList := freeList[..n];
      } else {
        TakeNext(nextPageId);
        if nextPageId > MAX_PAGE { return INVALID_PAGE; }
        id := nextPageId;
        nextPageId := nextPageId + 1;
      }
      currentAllocated := currentAllocated + 1;
      if currentAllocated > peakAllocated { peakAllocated := currentAllocated; }
    }

    /** Succeeds exactly on live pages. */
    method Free(id: PageId) returns (ok: bool)
      requires Valid()
      modifies this
      ensures Valid() && peakAllocated == old(peakAllocated)
      ensures ok <==> id in old(Live())
      ensures Live() == old(Live()) - {id}
      ensures nextPageId == old(nextPageId) && freeList == old(freeList) + if ok then [id] else []
    {
      if id == INVALID_PAGE || id < RESERVED || id >= nextPageId || id in freeList {
        assert id !in Live();
        return false;
      }
      assert id in Live();
      freeList := freeList + [id];
      currentAllocated := currentAllocated - 1;
      assert Live() == old(Live()) - {id};
      return true;
    }
  }

  class SpaceManager {
    const pages: PageAllocator
    const freeMap: FreeSpaceMap

    /** Every managed page that is not live is free in the map.  The converse fails: see
        PageStaysFree. */
    ghost predicate Valid() reads this, pages, freeMap {
      && pages.Valid()
      && Canonical(freeMap.extents)
      && (forall p :: Managed(p) && p !in pages.Live() ==> FreeSpace.Free(freeMap.extents, p))
      && (forall p :: FreeSpace.Free(freeMap.extents, p) ==> Managed(p))
    }

    ghost function Live(): set<PageId> reads this, pages { pages.Live() }

    constructor ()
      ensures Valid() && Live() == {} && fresh(pages) && fresh(freeMap)
      ensures freeMap.extents == [Extent(8, 1048568)]
    {
      var p := new PageAllocator();
      var f := new FreeSpaceMap();
      f.Initialize(RESERVED, MAX_PAGE - RESERVED + 1);
      pages, freeMap := p, f;
    }

    /** Never hands out a live or reserved page; fails exactly when all managed pages are
        live, so the rollback after a failed MarkAllocated never runs.  In the map the page
        stops being free, unless it was the first of several free pages. */
    method AllocatePage() returns (id: PageId)
      requires Valid()
      modifies pages, freeMap
      ensures Valid()
      ensures id == INVALID_PAGE <==> forall p :: Managed(p) ==> p in old(Live())
      ensures id == INVALID_PAGE ==> Live() == old(Live())
      ensures id != INVALID_PAGE ==> Managed(id) && id !in old(Live()) && Live() == old(Live()) + {id}
      ensures id == INVALID_PAGE ==> freeMap.extents == old(freeMap.extents)
      ensures id != INVALID_PAGE ==>
                && (FreeSpace.Free(freeMap.extents, id) <==> StartsLonger(old(freeMap.extents), id))
                && forall p :: p != id ==>
                     (FreeSpace.Free(freeMap.extents, p) <==> FreeSpace.Free(old(freeMap.extents), p))
    {
      id := pages.Allocate();
      if id != INVALID_PAGE {
        assert Covers(Extent(id, 1), id);
        ghost var s := freeMap.extents;
        var ok := freeMap.MarkAllocated(Extent(id, 1));
        if !ok {
          assert false;
        }
        PageStaysFree(s, id, freeMap.extents);
      }
    }

    /** Succeeds exactly on live pages, and then adds the page to the free ones. */
    method FreePage(id: PageId) returns (ok: bool)
      requires Valid()
      modifies pages, freeMap
      ensures Valid()
      ensures ok <==> id in old(Live())
      ensures Live() == old(Live()) - {id}
      ensures !ok ==> freeMap.extents == old(freeMap.extents)
      ensures ok ==>
                forall p :: FreeSpace.Free(freeMap.extents, p) <==> p == id || FreeSpace.Free(old(freeMap.extents), p)
    {
      ok := pages.Free(id);
      if ok {
        ok := freeMap.MarkFree(Extent(id, 1));
      }
    }
  }

  predicate StartsLonger(s: seq<Extent>, p: PageId) {
    exists i :: 0 <= i < |s| && s[i].start == p && s[i].length > 1
  }

  /** Marking one free page allocated changes no other page, and leaves it free exactly when it
      starts a free extent of two pages or more. */
  lemma PageStaysFree(s: seq<Extent>, id: PageId, s': seq<Extent>)
    requires Canonical(s) && Extents.Covers(Extent(id, 1), id) && FreeSpace.Free(s, id)
    requires Removal(s, Extent(id, 1), true, s')
    ensures FreeSpace.Free(s', id) <==> StartsLonger(s, id)
    ensures forall p :: p != id ==> (FreeSpace.Free(s', p) <==> FreeSpace.Free(s, p))
  {
    assert ProperPrefix(s, Extent(id, 1)) <==> StartsLonger(s, id);
  }

  /** So the converse of the manager's invariant is false from the first allocation on. */
  lemma FirstPageStaysFree(s': seq<Extent>)
    requires Removal([Extent(RESERVED, MAX_PAGE - RESERVED + 1)], Extent(RESERVED, 1), true, s')
    ensures FreeSpace.Free(s', RESERVED) && |FreePages(s')| == MAX_PAGE - RESERVED + 1
  {
    var s := [Extent(RESERVED, MAX_PAGE - RESERVED + 1)];
    assert s[0].start == RESERVED && 1 < s[0].length;
    assert ProperPrefix(s, Extent(RESERVED, 1));
    CountOneMore(s, 0);
    assert s[..1] == s && FreePages(s[..0]) == {};
  }

  // ---------------------------------------------------------------- extents

  datatype Hints = Hints(preferContiguous: bool, preferEnd: bool, exactFit: bool)

  /** First fit: what the policy proposes, before the map is changed. */
  method FirstFit(fsm: FreeSpaceMap, length: nat, hints: Hints) returns (r: Extent)
    requires Canonical(fsm.extents)
    ensures r.IsValid() ==> r.length == length && NoWrap(r) && Run(fsm.extents, r.start, length)
    ensures !hints.exactFit ==> (r.IsValid() <==> exists a :: Run(fsm.extents, a, length))
    ensures hints.exactFit ==> (r.IsValid() <==> length > 0 && exists e :: e in fsm.extents && e.length == length)
    ensures r.IsValid() && !hints.exactFit ==>
              if hints.preferEnd && (hints.preferContiguous || length > 1)
              then forall a: PageId :: Run(fsm.extents, a, length) ==> a <= r.start
              else forall a: PageId :: Run(fsm.extents, a, length) ==> r.start <= a
    ensures r.IsValid() && (hints.exactFit || (hints.preferEnd && (hints.preferContiguous || length > 1))) ==>
              !ProperPrefix(fsm.extents, r)
  {
    if hints.exactFit {
      r := fsm.FindExactRange(length);
    } else if hints.preferContiguous || length > 1 {
      r := fsm.FindFreeRange(length, !hints.preferEnd);
    } else {
      r := fsm.FindFreeRange(length, true);
    }
  }

  /** Best fit: the smallest sufficient extent, unless a single page is asked for. */
  method BestFit(fsm: FreeSpaceMap, length: nat, hints: Hints) returns (r: Extent)
    requires Canonical(fsm.extents)
    ensures r.IsValid() ==> r.length == length && NoWrap(r) && Run(fsm.extents, r.start, length)
    ensures !hints.exactFit ==> (r.IsValid() <==> exists a :: Run(fsm.extents, a, length))
    ensures hints.exactFit ==> (r.IsValid() <==> length > 0 && exists e :: e in fsm.extents && e.length == length)
    ensures r.IsValid() && hints.exactFit ==>
              r in fsm.extents && forall e :: e in fsm.extents && e.length == length ==> r.start <= e.start
    ensures r.IsValid() && !hints.exactFit && (hints.preferContiguous || length > 1) ==>
              exists i ::
                && 0 <= i < |fsm.extents| && fsm.extents[i].start == r.start
                && (forall j :: 0 <= j < |fsm.extents| && fsm.extents[j].length >= length ==>
                      fsm.extents[i].length <= fsm.extents[j].length)
                && (forall j :: 0 <= j < i ==>
                      fsm.extents[j].length < length || fsm.extents[i].length < fsm.extents[j].length)
    ensures r.IsValid() && !hints.exactFit && !hints.preferContiguous && length <= 1 ==>
              forall a: PageId :: Run(fsm.extents, a, length) ==> r.start <= a
  {
    if hints.exactFit {
      r := fsm.FindExactRange(length);
    } else if hints.preferContiguous || length > 1 {
      r := fsm.FindBestRange(length);
      if r.IsValid() { return; }
      r := fsm.FindFreeRange(length, true);
    } else {
      r := fsm.FindFreeRange(length, true);
    }
  }

  /** The wrapping scan from a cursor. */
  class SequentialPolicy {
    var cursor: PageId

    constructor () ensures cursor == RESERVED { cursor := RESERVED; }

    /** Finds a run whenever there is one, at the start of an extent: of the first one at or
        after the cursor that is long enough, else of the first one of all that is; and the
        cursor follows it. */
    method Allocate(fsm: FreeSpaceMap, length: nat) returns (r: Extent)
      requires Canonical(fsm.extents)
      modifies this
      ensures r.IsValid() <==> exists a :: Run(fsm.extents, a, length)
      ensures r.IsValid() ==> r.length == length && Run(fsm.extents, r.start, length) && cursor == r.start
      ensures !r.IsValid() && length > 0 ==> cursor == old(cursor)
      ensures forall e :: e in fsm.extents && old(cursor) <= e.start && 0 < length <= e.length ==>
                            r.IsValid() && old(cursor) <= r.start <= e.start
      ensures r.IsValid() ==> exists e :: e in fsm.extents && e.start == r.start && e.length >= length
      ensures r.IsValid() && r.start < old(cursor) ==>
                forall e :: e in fsm.extents && e.length >= length ==> r.start <= e.start < old(cursor)
    {
      var extents := fsm.extents;
      if extents == [] {
        NoRun(extents, length);
        return NO_EXTENT;
      }
      var it := FirstStartingFrom(extents, cursor);
      if it == |extents| { it := 0; }
      var scan := it;
      while scan < |extents|
        invariant it <= scan <= |extents| && cursor == old(cursor)
        invariant forall j :: it <= j < scan ==> extents[j].length < length
      {
        if extents[scan].length >= length {
          if length > 0 { ExtentIsRun(extents, scan, extents[scan].start, length); } else { NoRun(extents, 0); }
          cursor := extents[scan].start;
          return Extent(cursor, length);
        }
        scan := scan + 1;
      }
      scan := 0;
      while scan < it
        invariant 0 <= scan <= it && cursor == old(cursor)
        invariant forall j :: it <= j < |extents| || 0 <= j < scan ==> extents[j].length < length
      {
        if extents[scan].length >= length {
          assert extents[it].length < length;
          ExtentIsRun(extents, scan, extents[scan].start, length);
          cursor := extents[scan].start;
          return Extent(cursor, length);
        }
        scan := scan + 1;
      }
      NoRun(extents, length);
      return NO_EXTENT;
    }
  }

  /** No page belongs to two live extents, or to a live extent and to free space, and every
      page of the managed range belongs to one of them. */
  ghost predicate Partition(total: Extent, live: set<Extent>, s: seq<Extent>) {
    && Canonical(s)
    && (forall e :: e in live ==> e.IsValid() && NoWrap(e))
    && (forall e, p :: e in live && Covers(e, p) ==> Covers(total, p) && !FreeSpace.Free(s, p))
    && (forall d, e, p :: d in live && e in live && Covers(d, p) && Covers(e, p) ==> d == e)
    && (forall p :: FreeSpace.Free(s, p) ==> Covers(total, p))
    && (forall p :: Covers(total, p) && !FreeSpace.Free(s, p) ==> exists e :: e in live && Covers(e, p))
  }

  lemma PartitionTake(total: Extent, live: set<Extent>, s: seq<Extent>, r: Extent, s': seq<Extent>)
    requires Partition(total, live, s) && r.IsValid() && NoWrap(r)
    requires forall p :: Covers(r, p) ==> FreeSpace.Free(s, p)
    requires Canonical(s') && forall p :: FreeSpace.Free(s', p) <==> FreeSpace.Free(s, p) && !Covers(r, p)
    ensures Partition(total, live + {r}, s') && r !in live
  {
    assert Covers(r, r.start);
    forall p | Covers(total, p) && !FreeSpace.Free(s', p) ensures exists e :: e in live + {r} && Covers(e, p) {
      if !FreeSpace.Free(s, p) {
        var e :| e in live && Covers(e, p);
        assert e in live + {r};
      }
    }
  }

  lemma PartitionGive(total: Extent, live: set<Extent>, s: seq<Extent>, r: Extent, s': seq<Extent>)
    requires Partition(total, live, s) && r in live
    requires Canonical(s') && forall p :: FreeSpace.Free(s', p) <==> FreeSpace.Free(s, p) || Covers(r, p)
    ensures Partition(total, live - {r}, s')
  {
    forall p | Covers(total, p) && !FreeSpace.Free(s', p) ensures exists e :: e in live - {r} && Covers(e, p) {
      var e :| e in live && Covers(e, p);
    }
  }

  /** First-fit extent allocation.  `live` records what has been handed out. */
  class ExtentAllocator {
    const fsm: FreeSpaceMap
    ghost const total: Extent
    ghost var live: set<Extent>

    ghost predicate Valid() reads this, fsm { Partition(total, live, fsm.extents) }

    constructor (start: PageId, length: nat)
      requires start + length < U32
      ensures Valid() && live == {} && total == Extent(start, length) && fresh(fsm)
    {
      var f := new FreeSpaceMap();
      f.Initialize(start, length);
      fsm, total, live := f, Extent(start, length), {};
    }

    /** Keeps live extents and free space apart exactly when the extent found is no proper
        prefix of a free extent, which exactFit guarantees, and so does preferEnd with more
        than one page or preferContiguous. */
    method Allocate(length: nat, hints: Hints) returns (r: Extent)
      requires Valid()
      modifies this, fsm
      ensures r.IsValid() ==> r.length == length > 0 && Run(old(fsm.extents), r.start, length)
      ensures !r.IsValid() ==> Valid() && live == old(live) && fsm.extents == old(fsm.extents)
      ensures r.IsValid() ==> Removal(old(fsm.extents), r, true, fsm.extents)
      ensures length > 0 && !hints.exactFit && !r.IsValid() ==> forall a :: !Run(fsm.extents, a, length)
      ensures r.IsValid() ==> live == old(live) + {r} && r !in old(live)
      ensures r.IsValid() ==> (Valid() <==> !ProperPrefix(old(fsm.extents), r))
      ensures hints.exactFit || (hints.preferEnd && (hints.preferContiguous || length > 1)) ==> Valid()
    {
      if length == 0 { return NO_EXTENT; }
      r := FirstFit(fsm, length, hints);
      if r.IsValid() {
        ghost var s := fsm.extents;
        assert forall p :: Covers(r, p) ==> FreeSpace.Free(s, p);
        assert Covers(r, r.start);
        var ok := fsm.MarkAllocated(r);
        live := live + {r};
        if !ProperPrefix(s, r) {
          PartitionTake(total, old(live), s, r, fsm.extents);
        }
      }
    }

    /** Giving back a live extent makes its pages free. */
    method Release(extent: Extent) returns (ok: bool)
      requires Valid() && NoWrap(extent)
      modifies this, fsm
      ensures ok <==> extent.IsValid()
      ensures extent in old(live) ==> Valid() && live == old(live) - {extent}
      ensures forall p :: FreeSpace.Free(fsm.extents, p) <==>
                          FreeSpace.Free(old(fsm.extents), p) || (ok && Covers(extent, p))
    {
      if !extent.IsValid() { return false; }
      ghost var s := fsm.extents;
      ok := fsm.MarkFree(extent);
      if extent in live {
        PartitionGive(total, live, s, extent, fsm.extents);
      }
      live := live - {extent};
    }
  }
}
