# QuartzDB in Dafny

A model of the state-keeping core of QuartzDB, an embedded key/value store, with proofs about
whole runs of it. `dafny verify dfyconfig.toml` checks everything.

**The index.** `BTrees.BTree` is the B-tree over its page maps, with the fields the program has
(`rootId`, `size`, `height`, leaf pages, internal pages) and one ghost field, the tree those pages
stand for. Inserts split leaves and internal nodes upward and grow the root; erases borrow, merge,
rotate and collapse the root. One predicate, `Trees.Ok`, is the whole-tree invariant: nodes
strictly sorted, the keys below child *i* in the half-open interval from separator *i-1* (not
included) to separator *i* (included), one child more than keys, leaves at one depth, and non-root
nodes at least half full. Its `Mode` has two switches: `strict` says that no leaf holds a key equal
to its upper separator, `fill` asks for the minimum occupancy. Keys are the ranks of
`Keys.RankOrder`, so comparing keys is comparing integers.

**Space.** `FreeSpace.FreeSpaceMap` edits its sorted extents in place; the proofs read the extents
as a set of pages. `Space` has the page allocator, the space manager that keeps the two in step,
the three search policies and the extent allocator.

**Log and recovery.** `Durability` is a step system over records: inserts, erases, checkpoints,
truncations, failed flushes, crashes and reopenings in any order, and `Durability.Database` performs
its steps. `LogFormat`, `LogFiles` and `LogReaders` are the same log as bytes, and `WalReplay` is
recovery from those bytes.

**Codecs.** `Keys`, `NodePages`, `Snapshots` and `VarInts` encode and decode keys, node pages, tree
snapshots with checkpoint payloads, and variable-length integers.

## Where the code departs from its intent

The model follows the code. These departures are results, each with its exact condition and an input
on which it shows:

- A leaf split promotes its middle key and drops that key's reference, so an insert can report success
  for a key that is not found afterwards: `TreeRuns.LostIff` says exactly when. A promoted key can be
  inserted again; it then equals its own upper separator, and the validator rejects the tree. A valid
  tree is accepted exactly when no key occurs twice among leaf keys and separators
  (`TreeAudits.Audit`), an insert takes that away exactly when its key is a separator on its own search
  path (`TreeAudits.InsertThenAudit`), and after a run of inserts it holds exactly when no key was
  accepted twice (`TreeAudits.AuditRun`). `TreeAudits.LoseKey` is such a run, for every capacity: a key
  accepted, not found, accepted again, and the tree rejected.
- A borrow between leaves pairs the old separator with the neighbour's reference and makes the
  neighbour's key unfindable. When the left leaf of the pair holds the separator above it, the borrowed
  key is lost altogether and the order breaks (`Erasing.BorrowLeftOrder`, `Erasing.BorrowRightOrder`).
  An erase does the one exactly under `Deleting.Borrows`, the other exactly under `Deleting.Breaks`.
  `ReachedTrees.MisplaceRun` and `ReachedTrees.BreakRun` are runs of inserts and one erase, from an
  empty tree and for every capacity, in which it does.
- A merge of internal nodes is always refused, because it drops a child (`Erasing.InnerMergeRefused`).
  The key is gone by then, but the erase reports failure and leaves a node short, exactly under
  `Deleting.Refused`. In a tree of three or more levels at minimum occupancy that is so for every key
  present (`LeanTrees.LeanRefuses`; `LeanTrees.RefusedTree` is one for every capacity), and
  `RefusedRuns.RefusedRun` is a run of inserts alone, for every even inner capacity, after which an
  erase is refused.
- A merge of leaves drops the separator between them, so from the first one on the size counts keys
  that are no longer in the tree (`Deleting.Erase`, `MixedRuns.RunAll`).
- Marking a proper prefix of a free extent as allocated succeeds and changes nothing, so page 8,
  the first ever handed out, stays free in the map (`Space.FirstPageStaysFree`).
- Truncating the log after a checkpoint keeps every record (`Durability.TruncateKeepsAll`).
- The reader expects padding after every record, a flush pads only at its end. A flush can be read
  back if and only if every record but its last has a payload of 7 modulo 8 bytes
  (`LogFormat.FlushesReadBack`). The first insert into an empty database never is
  (`LogFormat.FirstInsertLost`): what it acknowledged is gone after recovery from the file, whatever is
  logged later recovery finds an empty map, and the validation of the log then fails
  (`WalReplay.NothingRecovered`, `WalReplay.FirstInsertGone`). Where every flush can be read back,
  acknowledged operations do survive in the bytes (`WalReplay.BytesSurvive`).
- A reopened writer resumes after the last LSN that can be read, so an LSN beyond an unreadable place
  is handed out twice; LSNs go on increasing if and only if the last one that can be read is the last
  of the log (`LogFiles.LogWriter.RestoreFromFile`). After the first insert into an empty
  database it is not (`LogFiles.FirstFlushRead`, `LogFiles.FirstLsnTwice`).
- A negative signed integer comes back as a different one (`VarInts.ThroughTwice`).
- Of a tenth byte only the lowest bit counts, and others are dropped without a report
  (`VarInts.DecodeU64`).

## Model

| member | source | states |
|---|---|---|
| `BTrees.SearchLowerBound` | include/quartz/btree/KeyComparator.h:41-53 | the binary search returns the first index whose key is not below the one sought |
| `BTrees.BTree.constructor` | src/btree/BTree.cpp:15-16 | a new tree is empty, finds nothing and owns no page |
| `BTrees.BTree.DescendToLeaf` | src/btree/BTree.cpp:172-207 | the descent takes one step less than the tree is high and ends in the one leaf whose interval admits the key; its path records the page and child index of every step |
| `BTrees.BTree.DescendForInsert` | src/btree/BTree.cpp:209-220 | reports a duplicate if and only if the key would be found; otherwise the leaf and index where it belongs |
| `BTrees.BTree.Find` | src/btree/BTree.cpp:227-237 | succeeds if and only if some leaf holds the key, and returns the reference paired with it there |
| `Trees.LookupIffHolds` | src/btree/BTree.cpp:172-207 | in a tree satisfying the invariant, a search finds a reference for a key if and only if a leaf pairs them |
| `BTrees.BTree.Insert` | src/btree/BTree.cpp:282-326 | refuses the invalid page id and a findable key, exactly those, changing nothing; otherwise, while more pages are free than the tree is high, succeeds, takes at most one page more than the height and leaks none: the live pages that are not the tree's stay the same; keeps the whole-tree invariant, counts one more key, adds exactly the key to the bag of leaf keys and separators, and updates the map at the key less exactly the promoted median |
| `BTrees.BTree.InsertInLeaf` | src/btree/LeafNode.cpp:59-77 | a leaf with room takes the entry in order; the map gains exactly it |
| `BTrees.BTree.SplitAndInsertLeaf` | src/btree/Rebalance.cpp:43-83 | splitting a full leaf keeps the invariant, updates the map less the median, and adds the key to the bag of keys |
| `BTrees.BTree.WriteLeafHalves` | src/btree/Rebalance.cpp:52-75 | the lower half stays in the leaf's page, the upper half goes to a page that was free, the middle entry goes to neither |
| `Inserting.LeafSplit` | src/btree/Rebalance.cpp:43-83 | after a leaf split the pages hold a good tree and a detached right half waiting for its parent; both halves are at least half full |
| `BTrees.BTree.InsertIntoParent` | src/btree/Rebalance.cpp:14-41 | attaching the pending half at every level above, growing the root if need be, ends in a good tree with the same map and keys |
| `BTrees.BTree.NewRoot` | src/btree/Rebalance.cpp:16-30 | a split root gets a new root with the two halves below it, and the height grows by one |
| `BTrees.BTree.AttachToParent` | src/btree/Rebalance.cpp:32-41 | a parent with room takes separator and child at its place |
| `Inserting.ReachParent` | src/btree/Rebalance.cpp:32-41 | the separator is never one of the parent's keys, so the duplicate check of the parent never fires; inserting it at its lower bound puts the new child right after the split one |
| `BTrees.BTree.SplitAndInsertInternal` | src/btree/Rebalance.cpp:85-128 | splitting a full parent keeps every search and every key, with its own right half pending one level up |
| `Inserting.ParentSplit` | src/btree/Rebalance.cpp:85-128 | an internal split changes the result of no search, loses and duplicates no page and no key, and leaves both halves at least half full |
| `Erasing.InnerSplitRoutes` | src/btree/Rebalance.cpp:85-128 | for every key, two steps of the descent through the parent end in the same page before an over-full internal node is split and after its right half was attached to the parent |
| `Inserting.GrowRoot` | src/btree/Rebalance.cpp:16-30 | the tree under a new root satisfies the invariant one level higher, with the same map |
| `TreeRuns.InsertAll` | src/btree/BTree.cpp:282-326 | every run of inserts into a new tree, until pages run short: an entry is accepted if and only if its reference is valid and a search of the tree before it misses its key, and each step changes what is found as one insert does; the run ends with the whole-tree invariant, a size equal to the number of accepted inserts, those keys being exactly the leaf keys and separators, size + 1 at least 2(l+1)(m+1)^(h-2), and the live pages from before plus the tree's own |
| `TreeRuns.TreeKeys` | include/quartz/btree/BTreeTypes.h:56-66 | a tree of height h of at least 2 holds at least 2(l+1)(m+1)^(h-2) - 1 keys, l and m being half the capacities |
| `TreeRuns.LostIff` | src/btree/Rebalance.cpp:52-60 | a newly inserted key is lost at once if and only if its leaf is full and the key falls in its middle |
| `TreeAudits.InsertCanLose` | src/btree/Rebalance.cpp:52-60 | for every capacity, a full leaf in order for which inserting the key of the middle leaves that key unfindable |
| `TreeAudits.LoseKey` | src/btree/BTree.cpp:282-326 | for every capacity, a run from an empty tree in which an insert succeeds, a search for its key fails, inserting it again succeeds, so that the tree holds it twice, and the validator then rejects the tree |
| `Deleting.Erase` | src/btree/BTree.cpp:328-366 | reports a missing key, and only that, without change; otherwise the size drops by one, modulo 2^64, and the key alone leaves the map if and only if no leaf borrows; a borrow costs exactly one other key, whose reference shows under the old separator unless the order breaks; the order breaks if and only if the left leaf of the pair holds its separator, and then no form of the invariant holds; otherwise the full invariant does, or, if and only if the erase is refused, that is, when leaf, parent and their neighbours are all at the minimum, the invariant without minimum occupancy and not with it; the bag of leaf keys and separators loses exactly the key and, if its leaf merges, the separator beside it; the live pages that are not the tree's stay the same, so that every page taken out of the tree is given back |
| `Deleting.FixLeafUnderflow` | src/btree/Rebalance.cpp:276-303 | a short leaf borrows if and only if a neighbour has more than the minimum: the last entry of the left one if that has, else the first of the right one; otherwise it merges, which is refused if and only if the parent falls short in turn and its neighbours have none to spare; when the order breaks and what the map loses in each case |
| `Deleting.BorrowFromLeftLeaf` | src/btree/Rebalance.cpp:130-154 | the left neighbour's last reference moves under the old separator and the invariant holds again, or, if and only if the neighbour holds the separator, its last key is lost and no form of the invariant holds |
| `Deleting.BorrowFromRightLeaf` | src/btree/Rebalance.cpp:156-180 | the same for the right neighbour's first entry, broken if and only if the short leaf holds the separator |
| `Erasing.BorrowLeftEffect` | src/btree/Rebalance.cpp:130-154 | for every key and every pair in order, what a search of the pair finds after the borrow: the old separator finds the lent reference, the lent key nothing, every other key what it did; if the separator was in the left leaf only the lent key changes |
| `Erasing.BorrowRightEffect` | src/btree/Rebalance.cpp:156-180 | the same for a borrow from the right |
| `Erasing.BorrowLeftOrder` | src/btree/Rebalance.cpp:130-154 | the pair stays in order if and only if the lending leaf does not end in its upper separator |
| `Erasing.BorrowRightOrder` | src/btree/Rebalance.cpp:156-180 | the pair stays in order if and only if the borrowing leaf does not end in its upper separator |
| `Deleting.MergePages` | src/btree/Rebalance.cpp:182-274 | the right leaf's entries are appended to the left page, separator and child leave the parent, and the right page is released to the space manager, no other |
| `Deleting.ReleasePage` | src/btree/BTree.cpp:162-170 | the page leaves the tree and the live pages, and nothing else does |
| `Repairs.MergeReady` | src/btree/Rebalance.cpp:182-274 | two neighbouring leaves one of which is short always fit one leaf; merging them changes no search and keeps order, depth and the pages' ownership |
| `Deleting.AfterMerge` | src/btree/Rebalance.cpp:211-226 | after a merge an empty root collapses and the height drops by one, a short parent is repaired in turn, and any other is left alone; it is refused if and only if the parent is short and no neighbour of it has a key to spare, and then a node stays short; no search and no key changes |
| `Deleting.CollapseRoot` | src/btree/Rebalance.cpp:211-219 | an empty root gives way to its only child and its page is given back: the height drops by one, the invariant holds, no search changes |
| `Deleting.EraseLast` | src/btree/BTree.cpp:352-358 | erasing the only entry of a root leaf empties the tree and gives its page back |
| `Deleting.FixInternalUnderflow` | src/btree/Rebalance.cpp:461-488 | a short internal node rotates if and only if a neighbour has more than the minimum: through the left one if that has, whose last key becomes the separator, else through the right one, whose first key does; otherwise its merge is refused, nothing changes and the node stays short; no search and no key changes either way |
| `Deleting.Rotate` | src/btree/Rebalance.cpp:305-365 | both rotations restore the invariant, cut the run of keys and children of the two nodes at the place asked for, and change no search |
| `Erasing.RotationRoutes` | src/btree/Rebalance.cpp:305-365 | for every key, two steps of the descent from the parent, by its own lower bounds, end in the same page before and after a rotation |
| `Erasing.RotationKeepsKids` | src/btree/Rebalance.cpp:305-365 | a rotation loses and duplicates no child |
| `Erasing.InnerMergeRefused` | src/btree/Rebalance.cpp:367-459 | the children that an internal merge assembles never match its keys, so the assignment is always refused |
| `LeanTrees.LeanRefuses` | src/btree/Rebalance.cpp:461-488 | in a tree of three or more levels where no node below the root has a key to spare, the condition for a refused erase holds for every key, so erasing any key present is refused |
| `LeanTrees.RefusedTree` | src/btree/Rebalance.cpp:461-488 | for all capacities and every height from three on whose pages there are enough of, such a tree that satisfies the invariant, is held by managed pages of its own and finds its first key |
| `LeanTrees.EraseLean` | src/btree/BTree.cpp:328-366 | erasing from it reports failure, the key is gone, and the tree is in order but not filled |
| `RefusedRuns.RefusedRun` | src/btree/Rebalance.cpp:461-488 | for every leaf capacity and every even inner capacity, a run of inserts in descending order from an empty tree, after which erasing the highest key reports failure, with the key gone and a node left short |
| `ReachedTrees.MisplaceRun` | src/btree/Rebalance.cpp:130-154 | for every capacity, a run of inserts and one erase after which a promoted key is found with the reference that another key had, which is found no more |
| `ReachedTrees.BreakRun` | src/btree/Rebalance.cpp:130-154 | for every capacity, a run of inserts and one erase after which no form of the invariant holds |
| `TreeShapes.KeyCount` | src/btree/BTree.cpp:172-207 | a key occurs in the tree as often as it is a separator, and once more if a search finds it |
| `TreeShapes.LeafBlock` | src/btree/BTree.cpp:172-207 | the leaf a key belongs to holds exactly the keys found between the two separators next to it, at whatever level they are |
| `ErasedKeys.RotationKeys` | src/btree/Rebalance.cpp:305-365 | a rotation keeps the bag of leaf keys and separators of the whole tree |
| `ErasedKeys.FusedKeys` | src/btree/Rebalance.cpp:182-274 | a merge of leaves takes exactly the separator between them out of it |
| `MixedRuns.ErasesCleanly` | src/btree/Rebalance.cpp:276-303 | from the pages alone, before the call: whether erasing a key would be refused or break the order |
| `MixedRuns.RunAll` | src/btree/BTree.cpp:282-366 | every run of inserts and erases on a new tree, up to the first erase that would be refused or break the order and as long as pages last: the whole-tree invariant holds; every key inserted is in the tree, was erased, or was dropped with a merge; the size is the inserts less the erases and bounds the height; every answer is the one the map before it calls for; searches show the map that the operations leave, less what each one loses from the tree before it; and the live pages are those from before and the tree's own |
| `MixedRuns.MeaningSupplied` | src/btree/BTree.cpp:282-366 | whatever is lost on the way, a search finds only references that were inserted |
| `TreeValidation.ValidateLeafRange` | src/btree/TreeValidator.cpp:11-29 | accepts a leaf if and only if keys and references are as many, within capacity, the keys strictly increasing, none below the lower bound and all below the upper one |
| `TreeValidation.ValidateSubtree` | src/btree/TreeValidator.cpp:31-48 | accepts a page if and only if the subtree below it is one the definition of acceptance admits, with all leaves at the depth seen first |
| `TreeValidation.ValidateInternal` | src/btree/TreeValidator.cpp:50-94 | the same for an internal page, over all its children |
| `TreeValidation.Validate` | src/btree/TreeValidator.cpp:96-107 | an accepted tree has strictly increasing leaf keys in order, uniform leaf depth, and searches that find exactly the entries whose key is no separator above them |
| `TreeValidation.LeafKeysSorted` | src/btree/TreeValidator.cpp:11-94 | in-order leaf keys of an accepted tree increase strictly |
| `TreeValidation.FoundIffClear` | src/btree/TreeValidator.cpp:18-23 | in an accepted tree a leaf entry is found if and only if no separator on its path equals its key |
| `TreeValidation.AcceptedIffStrict` | src/btree/TreeValidator.cpp:18-23 | a tree in order whose child references are valid is accepted if and only if no leaf holds its own upper separator |
| `TreeAudits.ReadBack` | src/btree/TreeValidator.cpp:31-48 | following the page maps from the root gives back the tree they stand for, at its height |
| `TreeAudits.Audit` | src/btree/BTree.cpp:388-390 | run over the pages of any valid tree, the validator accepts if and only if no leaf holds its own upper separator, if and only if no key occurs twice among leaf keys and separators |
| `TreeAudits.StrictIffOnce` | src/btree/TreeValidator.cpp:18-23 | in a tree in order no leaf holds its own upper separator if and only if no key occurs twice |
| `TreeAudits.InTreeIffOnPath` | src/btree/BTree.cpp:172-207 | a key that a search does not find is in the tree if and only if it is a separator on its own search path |
| `TreeAudits.InsertThenAudit` | src/btree/BTree.cpp:282-326 | after a successful insert the validator accepts if and only if it would have before and the key was no separator on its own path; after a refused one, if and only if it would have before |
| `TreeAudits.AuditRun` | src/btree/BTree.cpp:282-326 | after any run of inserts into a new tree, each accepted or not as a search decides, the validator accepts if and only if no key was accepted twice |
| `Extents.MergeCovers` | src/space/Extent.cpp:18-26 | mergeable extents merge into one that covers exactly the pages of both |
| `FreeSpace.FreeSpaceMap.MarkAllocated` | src/space/FreeSpaceMap.cpp:15-83 | fails if and only if the range is invalid or meets no free page; on a proper prefix of a free extent changes nothing; otherwise is exactly set difference; keeps extents sorted, disjoint and apart |
| `FreeSpace.RemoveRangeIsRemoval` | src/space/FreeSpaceMap.cpp:15-83 | the removal loop, as a function, is that set difference for every map and range |
| `FreeSpace.FreeSpaceMap.MarkFree` | src/space/FreeSpaceMap.cpp:85-138 | fails if and only if the range is empty or starts at the invalid page; otherwise is exactly set union, and keeps extents sorted, disjoint and apart |
| `FreeSpace.AddRangeIsUnion` | src/space/FreeSpaceMap.cpp:85-138 | the insertion with its merges, as a function, is that set union for every map and range |
| `FreeSpace.FreeSpaceMap.FindFreeRange` | src/space/FreeSpaceMap.cpp:144-163 | finds a range if and only if that many consecutive free pages exist, and then the lowest or the highest such run |
| `FreeSpace.FreeSpaceMap.FindExactRange` | src/space/FreeSpaceMap.cpp:165-172 | finds the lowest extent of exactly the length, or there is none |
| `FreeSpace.FreeSpaceMap.FindBestRange` | src/space/FreeSpaceMap.cpp:174-187 | finds the start of the smallest sufficient extent, the first of equals, if and only if a run exists |
| `FreeSpace.FreeSpaceMap.CountFree` | src/space/FreeSpaceMap.cpp:189-195 | the sum of the lengths is the number of free pages |
| `FreeSpace.FreeSpaceMap.Contains` | src/space/FreeSpaceMap.cpp:197-205 | true if and only if the page is free |
| `FreeSpace.FreeSpaceMap.Validate` | src/space/FreeSpaceMap.cpp:207-234 | true if and only if the extents are in canonical form or there are fewer than two |
| `Space.PageAllocator.Allocate` | src/storage/PageAllocator.cpp:12-39 | hands out the page freed last, else the next page never handed out, a managed page that is not live in any case; fails if and only if all managed pages are live; the counters are the live count and its running maximum |
| `Space.PageAllocator.Free` | src/storage/PageAllocator.cpp:41-60 | succeeds if and only if the page is live, and makes it not live and the first to be handed out again |
| `Space.SpaceManager.AllocatePage` | src/space/SpaceManager.cpp:25-40 | the same with the free map kept along: no other page changes in the map, and the page handed out is free in it afterwards if and only if it began a longer free extent; every managed page that is not live is free in the map, so the rollback branch is never taken |
| `Space.SpaceManager.FreePage` | src/space/SpaceManager.cpp:42-50 | succeeds if and only if the page is live; exactly that page becomes free in the map |
| `Space.PageStaysFree` | src/space/FreeSpaceMap.cpp:38-54 | a page just handed out is still free in the map if and only if it begins a longer free extent, and no other page changes |
| `Space.FirstPageStaysFree` | src/space/SpaceManager.cpp:25-40 | so the first page of a new database is handed out and stays free in the map |
| `Space.FirstFit` | src/space/AllocationPolicy.cpp:9-18 | the lowest, highest or exact run, as the hints ask, if and only if there is one |
| `Space.BestFit` | src/space/AllocationPolicy.cpp:22-33 | under the exact-fit hint the lowest extent of just the length, if and only if there is one; otherwise a run if and only if there is one, in the first of the smallest sufficient extents, or, for a single page, the lowest |
| `Space.SequentialPolicy.Allocate` | src/space/AllocationPolicy.cpp:37-73 | finds a run if and only if there is one: the start of the first sufficient extent at or after the cursor, else of the first of all; and moves the cursor to it |
| `Space.ExtentAllocator.Allocate` | src/space/ExtentAllocator.cpp:10-21 | live extents stay disjoint from each other and from free space, and together with it cover the managed range, if and only if the extent found is no proper prefix of a free one, which exact fit and last fit guarantee |
| `Space.ExtentAllocator.Release` | src/space/ExtentAllocator.cpp:23-28 | adds exactly the extent's pages to the free ones; releasing a live extent keeps that partition |
| `Recovery.RecoveredIsReplay` | src/recovery/RecoveryManager.cpp:10-36 | when LSNs increase and every checkpoint holds the map of the records before it, restoring the last checkpoint and replaying later LSNs is replaying the whole log from empty |
| `Recovery.ReplayAgain` | src/recovery/LogReplayer.cpp:12-88 | replaying a log over the map of any of its prefixes gives the same map, reference for reference |
| `Recovery.EarliestStays` | src/recovery/LogReplayer.cpp:22-31 | of references that differ only in the reserved and checksum fields, inserted one after another under a key, replay keeps the first |
| `Recovery.Untouched` | src/recovery/LogReplayer.cpp:12-56 | replay shows no key that no record touches |
| `Recovery.FindLastCheckpoint` | src/recovery/CheckpointManager.cpp:42-69 | the scan returns the position of the last checkpoint, or that there is none |
| `Recovery.ReplayLog` | src/recovery/LogReplayer.cpp:58-88 | the loop applies, in order, the records later than the given LSN that are no checkpoints |
| `Recovery.MaxLsn` | src/wal/LogWriter.cpp:84-107 | the restoring scan ends with the LSN of the last record |
| `Recovery.Recover` | src/recovery/RecoveryManager.cpp:10-36 | the recovered map, which is the map of the whole log when LSNs increase and checkpoints are faithful, before the closing validation |
| `Durability.StepKeeps` | src/core/Database.cpp:107-149 | every step keeps the invariant: LSNs increase along file and buffer and stay below the next one, the tree is the replay of the log, checkpoints are faithful, and every acknowledged operation is in the file |
| `Durability.RunKeeps` | src/core/Database.cpp:107-149 | the invariant holds after every run of inserts, erases, checkpoints, truncations, failed flushes and crashes |
| `Durability.AckedSurvive` | src/core/Database.cpp:107-149 | after every run and a crash at any point, recovery from the records gives the map of a prefix of the log, and that prefix contains every operation whose call returned success; for the bytes see `WalReplay.BytesSurvive` and `WalReplay.NothingRecovered` |
| `Durability.AckedShows` | src/core/Database.cpp:107-125 | an acknowledged insert or erase shows in the recovered map unless a later operation on its key survived too |
| `Durability.LastWriteWins` | src/recovery/LogReplayer.cpp:12-56 | replay shows for a key what the last operation on it said: nothing, or a reference with that page, generation, type and flags |
| `Durability.TruncateKeepsAll` | src/recovery/CheckpointManager.cpp:80-98 | truncating a log after its last record keeps every record |
| `Durability.TruncatedAfter` | src/recovery/CheckpointManager.cpp:80-98 | the scan keeps exactly the records up to the first with the LSN, and fails if and only if there is none |
| `Durability.CallIsRun` | src/core/Database.cpp:107-125 | a database call is a run of the steps: log, flush, return, or log and fail |
| `Durability.Database.Insert` | src/core/Database.cpp:107-115 | succeeds if and only if the reference is valid, the key absent and the flush succeeds; then the insert's record is in the file, the buffer is empty and the call is among the acknowledged ones; when only the flush fails, the record waits in the buffer and the map has the key; otherwise nothing changes; each is exactly that call of the step system |
| `Durability.Database.Erase` | src/core/Database.cpp:117-125 | succeeds if and only if the key is present and the flush succeeds; then the erase's record is in the file, the buffer is empty and the call is among the acknowledged ones; when only the flush fails, the record waits in the buffer and the map lacks the key; otherwise nothing changes; each is exactly that call of the step system |
| `Durability.Database.Checkpoint` | src/recovery/RecoveryManager.cpp:38-50 | a checkpoint of the map becomes the last record of the file, or of the buffer if the flush fails; with or without truncation the file, buffer, LSNs and map are the same |
| `Durability.Database.Reopen` | src/recovery/RecoveryManager.cpp:10-36 | the file gains the buffered records that survived, the map is the replay of the file and the LSNs go on after it: the state the crash step describes, before the closing validation |
| `Durability.EraseThenReopen` | src/core/Database.cpp:117-125 | after an erase that returned success and a crash, the map is the one before without the key |
| `Durability.InsertThenReopen` | src/core/Database.cpp:107-115 | after an insert that returned success and a crash, the map is the one before with the key and its reference |
| `Durability.CheckpointThenReopen` | src/core/Database.cpp:137-149 | after a checkpoint that returned success and a crash, the file ends in it and the map is the one checkpointed |
| `WalReplay.UpdateBack` | src/wal/BTreeWalAdapter.cpp:13-30 | an insert's record is replayed as exactly the key and the reference inserted |
| `WalReplay.DeleteBack` | src/recovery/LogReplayer.cpp:36-45 | an erase's record is replayed as exactly the key erased |
| `WalReplay.CheckpointBack` | src/recovery/CheckpointManager.cpp:42-78 | a checkpoint's record is recovered as the map of the very tree that was checkpointed, whatever the order of its pages |
| `WalReplay.StructuralBack` | src/recovery/LogReplayer.cpp:46-52 | records of the six other types change no map |
| `WalReplay.BytesSurvive` | src/recovery/RecoveryManager.cpp:10-36 | after every run whose flushes can be read back, recovery from the bytes gives the map of the whole file, which has every acknowledged operation, and the log passes validation |
| `WalReplay.NothingRecovered` | src/recovery/RecoveryManager.cpp:10-36 | from a file that begins with the first insert into a new database, whatever follows, recovery gives the empty map and the validation of the log fails |
| `WalReplay.FirstInsertGone` | src/core/Database.cpp:107-115 | the first insert is acknowledged, in the table and in the log, and not in what recovery gets from the file |
| `LogFormat.DecodeEncode` | src/wal/LogRecord.cpp:34-91 | a record decodes from its bytes, whatever follows them |
| `LogFormat.EncodeDecode` | src/wal/LogRecord.cpp:34-91 | whatever decodes has every field within its width and encodes back to the bytes it was read from |
| `LogFormat.FrameLayout` | src/wal/LogWriter.cpp:65-82 | a frame is the size of what follows in four bytes, the nine fields at fixed places, and the payload |
| `LogFormat.ReadFrame` | src/wal/LogFile.cpp:104-133 | reading at a frame's offset returns its record and the distance to the next multiple of eight |
| `LogFormat.NotShifted` | src/wal/LogFile.cpp:104-133 | reading from one to seven bytes into a record never returns that record |
| `LogFormat.AppendsReadBack` | src/wal/LogFile.cpp:80-133 | records appended one by one are read back as exactly that list, ending at the file size |
| `LogFormat.FlushesReadBack` | src/wal/LogWriter.cpp:65-82 | flushed records are read back as exactly that list, ending at the file size, if and only if every record of a flush but its last has a payload of 7 modulo 8 bytes |
| `LogFormat.FirstInsertLost` | src/wal/BTreeWalAdapter.cpp:28-39 | an allocation record flushed before another record makes the file unreadable as those records |
| `LogFiles.LogFile.Append` | src/wal/LogFile.cpp:68-78 | the file grows by the data and zeros to the next multiple of eight |
| `LogFiles.LogFile.AppendRecord` | src/wal/LogFile.cpp:80-93 | the file grows by the record's padded frame |
| `LogFiles.LogFile.Truncate` | src/wal/LogFile.cpp:142-153 | refuses to cut into the header; otherwise keeps exactly the first bytes |
| `LogFiles.LogWriter.constructor` | src/wal/LogWriter.cpp:11-17 | a new writer has an empty log and the first LSN ahead |
| `LogFiles.LogWriter.AppendRecord` | src/wal/LogWriter.cpp:19-36 | takes the next LSN even when it refuses, wrapping to 0 after the last; appends if and only if the type is one of the nine, the LSN and the timestamp are not zero and the frame of 49 bytes and the payload fits the buffer; LSNs then increase along file and buffer if and only if they did and the LSN was new, which it stays for the next append unless it wraps |
| `LogFiles.LogWriter.Flush` | src/wal/LogWriter.cpp:46-55 | moves the buffer to the file as one batch, without changing the log |
| `LogFiles.LastReadable` | src/wal/LogWriter.cpp:84-98 | the scan ends with the LSN of the last readable record, on any file |
| `LogFiles.ValidateLog` | src/wal/LogManager.cpp:89-113 | accepts a file if and only if it can be read to its end as records of the nine types, with LSNs that are not zero and increase and timestamps that are not zero |
| `LogFiles.LogWriter.RestoreFromFile` | src/wal/LogWriter.cpp:84-107 | on every file resumes after the last LSN that can be read, and keeps the LSNs if none can; on an ordered log they go on increasing if and only if no LSN of file or buffer is above that one and it is not the last there is; if every flush can be read back, if and only if the buffer was empty or the file had no record |
| `LogFiles.LogWriter.Open` | src/wal/LogManager.cpp:12-26 | a writer opened on any file left by another resumes after the last LSN that can be read; LSNs go on increasing if and only if no flushed one is above that and it is not the last there is |
| `LogFiles.FirstFlushRead` | src/wal/BTreeWalAdapter.cpp:28-39 | of the first flush of a new database, an allocation and an update, only the allocation can be read |
| `LogFiles.OnlyFirstRead` | src/wal/LogFile.cpp:104-133 | of a file that begins so, whatever is written later, only the allocation can be read |
| `LogFiles.FirstLsnTwice` | src/wal/LogManager.cpp:12-26 | a writer that reopens that file hands out the update's LSN a second time |
| `LogReaders.WrittenReadable` | src/wal/LogWriter.cpp:65-82 | what a writer flushed in aligned batches is a readable file with LSNs in order |
| `LogReaders.LogReader.ReadNext` | src/wal/LogReader.cpp:18-43 | when each status is returned, a record being invalid if and only if its type is none of the nine or its LSN or timestamp is zero, and what moves; on a readable file always the next record, then the end, so the order check never fails there |
| `LogReaders.LogReader.ReadLog` | src/recovery/CheckpointManager.cpp:47-63 | reading from the start until a read fails gives the whole log |
| `LogReaders.LogReader.SeekLsn` | src/wal/LogReader.cpp:45-69 | succeeds if and only if the LSN is present, and then that record is read next |
| `Keys.Compare` | src/btree/Key.cpp:59-87 | a 32-bit key comes before a 64-bit one and both before a binary one; two numbers of one type compare as numbers, two byte strings at the first place where they differ or one ends; zero if and only if the keys are equal, negative if and only if the rank is smaller |
| `Keys.CompareBytes` | src/btree/Key.cpp:73-83 | the loop is lexicographic comparison with proper prefixes first |
| `Keys.RankOrder` | src/btree/Key.cpp:59-87 | ranks order keys by type, then as numbers or as byte strings, and differ on different keys |
| `Keys.EncodeLayout` | src/btree/Key.cpp:126-147 | a type byte of 1, 2 or 3, then the number in four or eight bytes, or a two-byte length and the bytes |
| `Bytes.ByteAt` | include/quartz/serialization/BinaryWriter.h:32-36 | byte i of an encoded integer is its digit of weight 256^i, as a little-endian machine lays it out |
| `Keys.DecodeEncode` | src/btree/Key.cpp:126-181 | a key of the configured size decodes to itself wherever it stands |
| `Keys.EncodeDecode` | src/btree/Key.cpp:149-181 | whatever decodes, of at most 256 bytes and of the configured size, encodes back to the bytes it was read from |
| `NodePages.CapacityFits` | src/btree/BTreeNode.cpp:127-139 | entries of the configured key size fit the page if and only if they are no more than the capacity |
| `NodePages.SyncEntries` | src/btree/LeafNode.cpp:146-176 | writes left child and entries in order with zeros behind, or refuses if and only if they do not fit |
| `NodePages.LoadEntries` | src/btree/LeafNode.cpp:118-144 | the loop reads the given number of entries or fails with the first that cannot be read |
| `NodePages.LeafThroughPage` | src/btree/LeafNode.cpp:118-176 | a leaf within its capacity is loaded back from its page exactly |
| `NodePages.InnerThroughPage` | src/btree/InternalNode.cpp:121-200 | an internal node within its capacity is loaded back from its page exactly |
| `NodePages.ReferenceBack` | include/quartz/format/PageReference.h:12-46 | a reference is read back from its twenty bytes, uncompared fields included |
| `NodePages.ReferenceAgain` | include/quartz/format/PageReference.h:12-46 | any twenty bytes are a reference that encodes back to them |
| `Snapshots.ReadPages` | src/btree/BTree.cpp:492-505 | places every page in its table, and fails on a short input or another page type |
| `Snapshots.PlacedFirst` | src/btree/BTree.cpp:492-505 | pages are placed if and only if every page type is 1 or 2; leaf and internal table hold, for each id, the first page of their type with it |
| `Snapshots.PlacedAll` | src/btree/BTree.cpp:454-461 | whatever the order of its pages, the tree's two page tables are rebuilt |
| `Snapshots.Deserialize` | src/btree/BTree.cpp:465-507 | a serialized tree is read back, fields and pages, whatever the order of its pages; an input is accepted if and only if it has a head of 24 bytes and as many pages of 4096 bytes as that counts, each of type 1 or 2 |
| `Snapshots.PayloadBack` | src/recovery/CheckpointRecord.cpp:6-61 | a checkpoint payload is read back, whatever follows it, if and only if it has a valid LSN |
| `Snapshots.Restore` | src/recovery/CheckpointManager.cpp:71-78 | restoring a checkpoint gives the tree that was checkpointed; another magic number or version, or LSN zero, is refused |
| `VarInts.Encode` | src/serialization/VariableLengthInteger.cpp:8-35 | the loop writes the LEB128 bytes, and fails if and only if they exceed the given sizes |
| `VarInts.EncodedSize` | src/serialization/VariableLengthInteger.cpp:66-73 | the loop counts the bytes of the encoding |
| `VarInts.EnoughBytes` | src/serialization/VariableLengthInteger.cpp:77-102 | five bytes are enough for 32 bits, ten for 64 |
| `VarInts.Decode` | src/serialization/VariableLengthInteger.cpp:37-64 | the loop decodes byte by byte with every error case |
| `VarInts.RoundTrip32` | src/serialization/VariableLengthInteger.cpp:77-92 | a 32-bit value decodes from its encoding with anything behind it, and exactly its bytes are consumed |
| `VarInts.RoundTrip64` | src/serialization/VariableLengthInteger.cpp:94-102 | the same for 64 bits |
| `VarInts.DecodeU32` | src/serialization/VariableLengthInteger.cpp:82-92 | the value of the seven-bit digits up to the first byte without the high bit; every error has its exact condition: too few bytes, five with the high bit, or a value of 2^32 or more; every 32-bit value is read back from its encoding, whatever follows it |
| `VarInts.DecodeU64` | src/serialization/VariableLengthInteger.cpp:99-102 | the same for ten bytes, modulo 2^64: the value is exact if and only if there is no tenth byte or it is 0 or 1; an overflow is reported if and only if all ten have the high bit and the last has another |
| `VarInts.ThroughTwice` | src/serialization/VariableLengthInteger.cpp:104-119 | the signed round trip is the identity exactly on the non-negatives, and is its own inverse |
| `VarInts.EncodeS32` | src/serialization/VariableLengthInteger.cpp:104-110 | writes the LEB128 bytes of 2v, or of 2(v + 2^31) + 1 for a negative v, at most five, or fails if and only if they do not fit |
| `VarInts.DecodeS32` | src/serialization/VariableLengthInteger.cpp:112-119 | reads z as z/2 if even and -1 - z/2 if odd, and fails if and only if no 32-bit z can be read; so it reads v back from the encoding of v, or -2^31-1-v when v is negative |

## Left out

- Deleting.Erase: requires the minimum occupancy to hold, which a refused erase gives up, as a broken one does the invariant; runs are followed up to there.
- Recovery.Recover: does not include the validation that closes recovery; its log half is `LogFiles.ValidateLog`, its tree half `TreeAudits.Audit`.
- Durability.Database.Reopen: does not include that validation either.
- BTrees.BTree.Insert: promises nothing about the tree when a page allocation fails half way through a split.
- LogFormat.Read: bytes past the end of the file read as zero, as a short stream read leaves them, but the stream's failed state after such a read is not modelled.
- Durability: the log is a sequence of readable records; for flushes that the byte format cannot read back, `WalReplay` applies instead. A flush that a crash cuts in the middle of a record is not modelled.
- Durability: appends do not fail, and the tree is a map, so the references that a leaf split or borrow loses do not show there.
- WalReplay.BodyOf: a checkpoint record whose payload cannot be restored, from which recovery turns back to an empty tree, is not followed; what the pages of a tree mean as a map is a parameter.
- The duplicate-keys option and failures of the log while the tree changes.
- Child references are page ids; their generation, type and checksum fields are only in the codecs.
- Inserts after a snapshot restore: the restored pages are not registered with the space manager.
- Cursors, bulk loading, split and merge planning, vacuum and the catalog.
- The 64-bit signed integers: the same argument as the 32-bit ones.
- Statistics, fragmentation figures and result flags.
- File streams, file and page headers, page types other than index pages.
- Upper-bound search, and the wrappers that only forward to modelled operations.
