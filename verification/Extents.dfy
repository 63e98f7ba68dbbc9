/**
  Extents: runs of consecutive page ids, with the 32-bit arithmetic of the page id type.
 */
module Extents {
  import opened Options
  import opened PageReferences

  const U32: nat := 0x1_0000_0000

  /** Both fields are 32-bit, so an end page wraps at most once. */
  datatype Extent = Extent(start: nat, length: nat) {
    predicate IsValid() { length > 0 && start != INVALID_PAGE }

    function EndPage(): nat { if start + length < U32 then start + length else start + length - U32 }

    predicate HasPage(page: PageId) { start <= page < EndPage() }

    predicate HasExtent(other: Extent) {
      other.IsValid() && start <= other.start && other.EndPage() <= EndPage()
    }

    predicate Intersects(other: Extent) {
      IsValid() && other.IsValid() && start < other.EndPage() && other.start < EndPage()
    }

    predicate AdjacentTo(other: Extent) {
      IsValid() && other.IsValid() && (EndPage() == other.start || other.EndPage() == start)
    }

    predicate CanMerge(other: Extent) { Intersects(other) || AdjacentTo(other) }

    function Split(atPage: PageId): Option<(Extent, Extent)> {
      if !IsValid() || atPage <= start || EndPage() <= atPage then None
      else Some((Extent(start, atPage - start), Extent(atPage, EndPage() - atPage)))
    }
  }

  const NO_EXTENT := Extent(INVALID_PAGE, 0)

  function Merge(a: Extent, b: Extent): Option<Extent> {
    if !a.IsValid() || !b.IsValid() then None else
    var newStart := if a.start <= b.start then a.start else b.start;
    var newEnd := if a.EndPage() <= b.EndPage() then b.EndPage() else a.EndPage();
    if newEnd <= newStart then None else Some(Extent(newStart, newEnd - newStart))
  }

  /** The extent ends before the page id space wraps around. */
  predicate NoWrap(e: Extent) { e.start + e.length < U32 }

  /** Page p lies in e. */
  predicate Covers(e: Extent, p: PageId) { e.start <= p < e.start + e.length }

  /** Merging two extents that overlap or touch gives exactly the pages of both. */
  lemma MergeCovers(a: Extent, b: Extent)
    requires a.IsValid() && b.IsValid() && NoWrap(a) && NoWrap(b) && a.CanMerge(b)
    ensures Merge(a, b).Some?
    ensures var m := Merge(a, b).value;
            && m.IsValid() && NoWrap(m)
            && forall p :: Covers(m, p) <==> Covers(a, p) || Covers(b, p)
  {
  }
}
