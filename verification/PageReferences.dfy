/** Page ids and page references. */
module PageReferences {
  type PageId = nat

  const INVALID_PAGE: PageId := 0xFFFF_FFFF

  datatype PageReference = PageReference(
    pageId: PageId, generation: nat, pageType: nat, flags: nat, reserved: nat, checksum: nat)
  {
    predicate IsValid() { pageId != INVALID_PAGE }

    /** The reference's own equality, which ignores the reserved and checksum fields. */
    predicate Same(other: PageReference) {
      && pageId == other.pageId
      && generation == other.generation
      && pageType == other.pageType
      && flags == other.flags
    }
  }
}
