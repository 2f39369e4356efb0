# A verified model of an on-disk B-tree engine

The engine keeps B-trees in fixed-size pages of one file, in four layers, each of which hides the one below behind a
much simpler object.

- **Pages** (`PageCache.dfy`, `PagerInternal.dfy`, `Pager.dfy`): a write-through, sorted, reference-counted cache over
  the file, and a free list threaded through page metadata with its head on page 1. To its clients the pager is a map
  from the pages in use to their contents, and a sequence of free pages.
- **Payloads** (`Overflow.dfy`, `Compare.dfy`, `SchemaCompare.dfy`): a prefix in the cell and a chain of overflow pages,
  written back to front. A stored payload is a byte string; the comparators see it through windows and still give its
  lexicographic order.
- **Nodes** (`Node.dfy`, `NodeMove.dfy`, `SlottedPage.dfy`, `Compaction.dfy`, `NodeOnPage.dfy`, `PageImage.dfy`): on the
  page, slots from the left, a cell heap from the right, counters for both; to the tree, a sequence of cells and a
  right child. `PageImage.dfy` has the bytes that the sizes in the other modules are the sizes of.
- **Trees** (`Tree.dfy` and the modules that import it): the index tree is a sorted sequence of payloads, kept in all
  nodes. There are no parent pointers: a cursor carries breadcrumbs.

`Tree.dfy` defines trees as values, when the pages *represent* a tree (`Represents`), its records in order
(`Contents`), the pages it owns as a multiset (`TreePages`), and paths into it with the subtree at the end left out
(`PlugAll`). An operation on a tree is proved in two parts: lemmas on trees as values say what becomes of contents,
pages and heights, and methods over the pager are shown to leave pages that represent the new value. `IsIndexTree` (in
`IndexTree.dfy`) is the invariant of index trees: all leaves at one depth, no page referenced twice, no node on page 1,
and every node within its heap and without a cell larger than a quarter of it.

**Runs.** `Runs.dfy` puts the operations together: as long as inserts of new payloads and deletions end in Ok, the tree
is the set of payloads that they describe, and a scan gives the set in order. That a run can go on rests on what each
operation keeps, besides order and well-formedness: no node becomes empty (`Filled.dfy`).

**Inserting.** `Climb.dfy` and `Split.dfy` hold the state of an insert between two levels of a split cascade,
`SplitPages.dfy` what a split does to the pages, `IndexInsert.dfy` the cascade. Three things about `ibtree_insert_ex`
are not as one would wish, and each has its exact condition in the contract of `IndexInsert.Insert`:

- An insert may be refused after nodes were split, because a half has no room either. Whether that happens can be read
  off the pages beforehand (`Room.Lands`); it never does among cells of equal cost (`Room.EvenForLands`), and it does
  for the leaf of `Limits.dfy`. A refused insert loses records unless the tree was a single leaf (`Refused.dfy`).
- A payload that is in the tree already is inserted again. In a leaf it lands next to its twin.
- In an internal node the new cell has no child, and no well-formed tree can be read from the pages any more
  (`Torn.dfy`). So an insert that ends well leaves a tree if and only if no internal node held the payload.

**Removing.** Closing the hole that a removed cell leaves in the heap (`gc_node`) keeps the other cells if and only if
no cell above the hole slides on top of a later one, a condition on slot offsets and cell sizes (`SlidesClear`,
`Compaction.LosslessIffSlidesClear`). It can fail: cells inserted in the order 1, 3, 2 lie in the heap in that order,
and removing the first then loses one (`SlottedPage.OutOfOrderLoses`). The modules that remove cells from nodes —
`Overflow.dfy` (Delete), `IndexDelete.dfy` and `IndexRotate.dfy` — work on sequences of cells; what they state holds of
the bytes of the pages when every removal on the way meets `SlidesClear`, under which `NodeOnPage.RemoveOnPage` shows
the two to be the same. Insertion is the same on both without condition (`NodeOnPage.InsertOnPage`).

Deleting the cell of an internal node removes it first and looks for its replacement then. If the replacement does not
fit, the cell's left subtree is cut off from the tree (`Deletion.CutOff`); `IndexDelete.DeleteSingle` says exactly when.

**Records.** `Record.dfy` stores the primary key first; `SchemaCompare.dfy` compares keys inside records that arrive in
windows; `KeyedRecord.dfy` joins the two.

**Rotating.** `IndexRotate.Rotate` is Ok exactly when child and parent have room. A rotation that the parent refuses has
changed the child already: above leaves one record is then there twice, above internal nodes no well-formed tree is left
(`RotationRefused.dfy`).

The pager's invariant and that of a slotted page are behind a countdown (`Pager.Sealed`, `SlottedPage.Intact`): each is
the same predicate for any number of steps, and the proofs of its clients do not unfold it. Records of an index tree
have key 0.

## Model

| member | source | states |
|---|---|---|
| Bytes.LessIsFirstDifference | src/ibtree.c:42-94 | The byte order of keys is: some first position at which one has ended or has the smaller byte; a proper prefix comes first |
| Bytes.Le32RoundTrip | src/sql_value.c:109-120 | A 32-bit number that is written reads back as it was, whatever follows it |
| Bytes.ReadIsValue | src/serialization.c:13-22 | Reading gives the value of the first four bytes, the least significant first, with the value of a byte string defined by recursion over it |
| Bytes.WrittenIsValue | src/serialization.c:3-11 | Writing gives four bytes that have the value |
| Bytes.ValueIsUnique | src/serialization.c:3-22 | No other bytes of that length have it, so every written byte is fixed |
| PageCache.Cache.FindInCache | src/page_cache.c:28-57 | Finds the slot of a page, or the place that keeps the slots strictly sorted |
| PageCache.Cache.Acquire | src/page_cache.c:94-114 | A hit pins exactly that slot and nothing else; a miss changes nothing |
| PageCache.Cache.Release | src/page_cache.c:116-134 | Undoes one pin of one page |
| PageCache.Cache.Evict | src/page_cache.c:136-163 | When some slot is unpinned, the first unpinned slot goes; the others keep their order |
| PageCache.Cache.Insert | src/page_cache.c:165-194 | The page is cached and pinned, the slots stay sorted and within capacity, and at most one other page, unpinned, has gone |
| PagerInternal.CachedFile.CachedRead | src/pager_internal.c:72-109 | Returns what the disk holds, and keeps the cache coherent and unpinned |
| PagerInternal.CachedFile.CachedWrite | src/pager_internal.c:138-161 | Cache and disk both hold the new image; no other page changes |
| PagerInternal.Run | src/pager_internal.c:66-160 | For every run of reads and writes and every capacity of at least one, the results and the disk are those of a pager without a cache |
| Pager.PopKeepsPartition | src/pager_freelist.c:16-69 | Taking the head off the free list leaves every page in use, free or in limbo, never two of these |
| Pager.PushKeepsPartition | src/pager_freelist.c:108-151 | Freeing a page in use other than page 1 keeps the free list linked, without repetition and complete |
| Pager.WriteKeepsPartition | src/pager.c:169-189 | Writing a page in use keeps the free list; page 1 must carry the current head |
| Pager.RootRewriteIsSafeIff | src/pager.c:169-189 | After page 1 is rewritten from a buffer the file has a free list that accounts for every page if and only if the buffer carries the current head |
| Pager.HeadHasNoPredecessor | src/pager_freelist.c:17-70 | No free page links to the head: the list has no cycle through it |
| Pager.Pager.constructor | src/pager.c:36-51 | A new pager has no page in use and none free |
| Pager.Pager.ReadPage | src/pager.c:113-118 | Reads what a page in use holds, and page 1 with the current head; fails for a page that does not exist |
| Pager.Pager.FreelistPop | src/pager_freelist.c:16-69 | Gives the first free page, or none; the pages in use are untouched |
| Pager.Pager.DiskPage | src/pager.c:129-154 | A buffer without an id gets a page that is not in use: the first free one, else a new last page |
| Pager.Pager.WritePage | src/pager.c:169-189 | Exactly one page of the map changes; a buffer without an id gets one that is not in use, the first free page before a new last one |
| Pager.Pager.Extend | src/pager.c:191-213 | A new last page, whatever is on the free list, which stays as it was |
| Pager.Pager.FreelistPushPage | src/pager_freelist.c:108-151 | The page is out of use and heads the free list |
| Pager.Pager.FreelistPush | src/pager_freelist.c:71-93 | The same, by page id |
| Node.HeapUsedInsert | src/btree_node.c:213-241 | Inserting a cell anywhere costs the node exactly what the cell requires |
| Compaction.LosslessIffSlidesClear | src/btree_node.c:529-561 | Closing the hole of a removed cell keeps every cell, whatever the heap holds, if and only if no cell above the hole slides on top of a later one; the condition is one on slot offsets and cell sizes |
| Compaction.AscendingSlidesClear | src/btree_node.c:529-561 | If the cells above the hole lie in the order of their slots, no cell slides on top of a later one |
| NodeOnPage.ReadBodyOfWritten | src/btree_cell.c:41-198 | Inline and overflow cells read back as they were written |
| NodeOnPage.BytesOfCell | src/btree_cell.c:41-198 | Which byte of a cell is what: four for the size of the rest, in an overflow cell four for the whole size and four for the first page, then payload or prefix; the flag 1 or 2 tells which |
| NodeOnPage.InsertOnPage | src/btree_node.c:258-285 | Inserting a cell into the bytes of a page refuses exactly when, and otherwise does what, inserting into the sequence of cells does |
| NodeOnPage.RemoveOnPage | src/btree_node.c:566-644 | When no cell slides on top of a later one, removing from the bytes of a page is removing from the sequence of cells; the counters agree |
| NodeMove.MoveCells | src/ibtree_alg.c:26-73 | Moving a stretch of cells of a node that keeps within its heap never fails and keeps their order |
| NodeMove.RefusalMeansFourCells | src/btree_node.c:56-67 | With cells of at most a quarter of the heap, a node that refuses a cell holds four |
| SlottedPage.SlottedPage.Insert | src/btree_node.c:258-285 | Refused exactly when the free heap is too small; else the slots are the old ones with the new one in its place, and the counters account for it |
| SlottedPage.SlottedPage.CloseHole | src/btree_node.c:529-561 | If no cell slides on top of a later one, every cell is still there, those above the hole moved by its width |
| SlottedPage.SlottedPage.Remove | src/btree_node.c:566-644 | When no cell slides on top of a later one: every other slot keeps its key, flags and cell bytes; cells fill the heap again, and exactly what the removed cell cost is free |
| SlottedPage.CompactedCloses | src/btree_node.c:529-561 | Under that condition the function that follows gc_node step by step, reading sizes from the heap, keeps every cell too |
| SlottedPage.CompactedIsCompact | src/btree_node.c:529-561 | As long as the cells keep their size fields, that function does what the one with given sizes does, for which the condition is exact |
| SlottedPage.OutOfOrderLoses | src/btree_node.c:529-561 | A page where the condition fails: of three cells, two slots end with the payload of one |
| PageImage.HeaderReads | src/btree_defs.h:35-45 | The header of a node takes 20 bytes; where its flag and its four numbers are |
| PageImage.SlotsRead | src/btree_defs.h:47-52 | Slot i begins at byte 12 i and holds key, offset and flags |
| PageImage.NodeFillsPage | src/btree_node.c:728-733 | File header (100 bytes, on page 1 only), node header, slots and heap fill a page exactly when the heap has the capacity that the algorithms calculate with |
| PageImage.SmallestPage | src/btree.c:88-98 | The smallest page size accepted is that of page 1 with four overflow cells that keep nothing of their payloads |
| PageImage.CellsRead | src/btree_utils.c:77-85 | In the bytes of a whole page every cell is where its slot says, counted from the right end; no slot lies over it |
| PageImage.OverflowReads | src/btree_overflow.c:11-59 | An overflow page names the next page and the size of its part, and its part reads back; the most it takes is what is left of the page |
| PageImage.MetaReads | src/pagemeta.c:36-61 | The metadata of a page read back: free or in use, the next free page and the number |
| Overflow.PagesForIsCeiling | src/btree_node_writer.c:133-145 | The number of overflow pages is the quotient rounded up |
| Overflow.FilledIsCeiling | src/btree_node_writer.c:129-188 | Every page of a chain but the last is full, so there are as few as can be: the bytes over the bytes of a page, rounded up |
| Overflow.OverflowWrite | src/btree_overflow.c:98-136 | A new page holds the part and names the next page |
| Overflow.OverflowRead | src/btree_overflow.c:60-96 | Reads back the part and the next page |
| Overflow.WriteChain | src/btree_node_writer.c:67-199 | Written back to front, the chain holds exactly the bytes after the prefix, each once, in as many new pages as the ceiling says |
| Overflow.WriteEx | src/btree_node_writer.c:67-199 | Accepts a payload if and only if it, or an overflow cell, fits; then the cell and its new pages hold exactly the payload, and a refusal changes no page. In numbers (`Divided`): inline exactly when it takes a quarter of the heap or less; else the cell takes the smaller of a quarter and the free heap, the rest goes to pages of which all but the last are full |
| Overflow.AcceptsInNumbers | src/btree_node_writer.c:116-131 | What is accepted: size and 16 bytes within a quarter and within the free heap, or 24 bytes free for a larger payload, on page 1 with 100 bytes less of heap |
| Overflow.DividedPages | src/btree_node_writer.c:133-188 | The overflow pages are the payload without its prefix over the page size less 8, rounded up |
| Overflow.DividedShows | src/btree_node_writer.c:116-131 | With more than 24 bytes free an overflow cell keeps a prefix, so a search that probes the cell has something to compare |
| Overflow.ReadAt | src/btree_node_reader.c:64-143 | With a large enough buffer, exactly the stored payload, whatever its chain; else an error |
| Overflow.FreeChain | src/btree_node_writer.c:201-287 | Exactly the pages of the chain go to the free list |
| Overflow.Delete | src/btree_node_writer.c:201-287 | The cell is gone from the node (on its page: when NodeOnPage.RemoveOnPage applies) and its overflow pages, and no others, are free, also when the node is on page 1 with the head of the free list |
| Overflow.StoreReadDelete | src/btree_node_writer.c:67-286 | A payload that is stored, read and deleted comes back whole and leaves the pages in use as they were |
| Compare.WindowStep | src/ibtree.c:42-94 | One window either decides the order of payload and key, or leaves the two equal up to its end |
| Compare.CompareCell | src/btree_node.c:738-830 | For a non-empty window and key, the lexicographic order of the whole stored payload and the key, however overflow pages cut the payload |
| Compare.SearchKeys | src/btree_node.c:832-877 | Binary search in sorted cells: the cell with the key, else the place between the smaller and the larger cells |
| SchemaCompare.VarKeyContext.ConsumeLength | src/ibtree_layout_schema_cmp.c:58-82 | Takes from the window exactly the missing bytes of the length field, and is ready when there are four |
| SchemaCompare.VarKeyContext.Compare | src/ibtree_layout_schema_cmp.c:231-331 | One window decides the order of the keys or leaves them equal up to its end; the closing assertion fails if and only if the window ends right after the length (and the search key is not empty) or reaches beyond a stored key that is a strict prefix |
| SchemaCompare.CompareStream | src/ibtree_layout_schema_cmp.c:184-331 | On a context in any state, for any cut into windows, the order of stored and search key comes out if and only if the stored key is no strict prefix of the search key and, unless that is empty, no window ends right after the length |
| Tree.ContentsAround | src/btree_cursor.c:92-124 | The records of a tree are those before a child, of the child and after it |
| Tree.PlugAllRepresents | src/btree_cursor.c:417-469 | Going down from node to child loses nothing: the pages represent a tree exactly when they represent the subtree reached and everything along the path to it |
| Tree.RepresentsFrame | src/noderc.c:96-114 | Writing pages that a tree does not own does not change the tree |
| Cursor.Cursor.Push | src/btree_cursor.c:158-172 | Adds the current crumb; refused if and only if there are eight |
| Cursor.Cursor.PushCrumb | src/btree_cursor.c:174-190 | Adds a crumb and goes there; refused if and only if there are eight |
| Cursor.Cursor.Pop | src/btree_cursor.c:192-219 | Takes the last crumb off and goes to the one before, or to page 0 |
| Cursor.ChildPageIsKid | src/btree_cursor.c:92-124 | The page read from slot i is the page of child i, in index trees and in table trees |
| Order.ItemsIncreasing | src/btree_node.c:832-877 | In a tree with increasing records the cells of every node are in order, so binary search applies |
| Order.KeyGoesToKid | src/btree_cursor.c:417-469 | A key between two neighbouring cells lies after all records left of the child between them and before all records right of it |
| Search.VisitNode | src/btree_cursor.c:417-469 | One node of the descent: the slot that is pushed separates smaller from larger cells |
| Search.TraverseTo | src/btree_cursor.c:417-469 | Finds exactly the cell with the key, or the leaf slot where it belongs between smaller and larger records; the crumbs spell the path from the root; it fails for depth only in a tree of eight levels or more, reaches a leaf only in one of fewer, and gives up on a node only if a cell of that node shows nothing to compare |
| Presence.FoundIfPresent | src/btree_cursor.c:417-469 | Found is reported if and only if some record has the key |
| Presence.StopsInLeaf | src/btree_cursor.c:417-469 | The search stops in a leaf if and only if no internal node holds the key |
| SplitPages.SplitCells | src/ibtree_alg.c:26-73 | Lower cells, middle cell, upper cells: together they are the cells, and there are as many upper cells as lower ones, or one more |
| SplitPages.SplitNode | src/ibtree_alg.c:160-218 | The node keeps its page with the upper cells, one new page has the lower ones, and the middle cell is in the holding node; as many upper as lower cells, or one more |
| SplitPages.SplitNodeAsParent | src/ibtree_alg.c:78-155 | Two new pages have the halves, even in the same way; the node keeps its page as their parent, with the middle cell |
| SplitPages.WriteEntry | src/btree_node_writer.c:67-199 | Writes a new payload, spilled or not, or moves a held cell if and only if there is room; a refusing node holds four cells |
| SplitPages.SplitNodeAndWrite | src/ibtree_alg.c:375-443 | The retry after a split below the root writes if and only if the chosen half has room |
| SplitPages.SplitParentAndWrite | src/ibtree_alg.c:344-374 | So does the retry after a split of the root |
| Room.HalfHasRoom | src/ibtree_alg.c:340-417 | The half that a split chooses has room for a cell that costs no more than the middle cell |
| Room.LandsAbove | src/ibtree_alg.c:319-443 | Once the half has taken the entry, whether the insert ends well depends on the parent and its middle cell alone, and the split has not changed that |
| Room.EvenForLands | src/ibtree_alg.c:319-443 | In a tree all of whose cells cost what the new one costs, every insert ends well |
| IndexInsert.SplitAndWrite | src/ibtree_alg.c:375-443 | After a split below the root and the retry, the middle cell and the left half wait for the parent, the plan for the whole tree unchanged; if the retry is refused, a well-formed tree without the left half remains |
| IndexInsert.SplitRootAndWrite | src/ibtree_alg.c:344-374 | After a split of the root the tree is well formed, one level higher, on the same root page, with the planned records, or without the waiting entry if it is refused |
| IndexInsert.InsertAtCursor | src/ibtree_alg.c:291-452 | For a cascade of any length: it ends well if and only if the pages on the way up have room (`Lands`), with the planned records, balance, root page and pages; no page outside the path changes |
| IndexInsert.Insert | src/ibtree.c:174-196 | For new and present payloads alike: ends well exactly when `Lands` says so; leaves a well-formed tree if and only if no internal node held the payload; that tree has the record in its place, next to its twin if there is one, the root page stays, every page is owned once and no new one is lost; no node becomes empty, whether the insert ends well or is refused; a leaf with room (in numbers, `TakesSize`) takes the record and no other page changes; if refused, the remaining well-formed tree has all records if and only if the old tree was a single leaf; refused for depth only from eight levels on |
| Filled.FilledHalves | src/ibtree_alg.c:26-73 | Both halves of a node of at least three cells have cells, and their children are the children there were |
| Filled.FilledRaise | src/ibtree_alg.c:375-443 | A split step leaves no node of the planned tree empty if none was before |
| InsertStart.NewRecordAt | src/ibtree.c:174-196 | The slot of a leaf where the search stopped is where sorted insertion puts the record, and the records stay strictly increasing if and only if the key was not there |
| Torn.NoTreeWithGap | src/ibtree.c:174-196 | A page below which an internal cell names no child is the root of no well-formed tree |
| Torn.GapInHalf | src/ibtree_alg.c:26-73 | Splitting a node that lacks a child leaves a half that lacks one: no later split mends the tree |
| Refused.RightHalfRemains | src/ibtree_alg.c:375-443 | What a refusal below the root leaves is a well-formed tree that is short of the left half, the middle cell and the waiting entry |
| Refused.RootRemains | src/ibtree_alg.c:344-374 | What a refusal at the root leaves is a well-formed tree that is short of the waiting entry only |
| IndexTree.HalvesContents | src/ibtree_alg.c:26-73 | Left half, middle cell and right half have the records of the node, in order |
| Split.ParentTakesHalves | src/ibtree_alg.c:375-443 | Putting the left half and the raised cell before the split child leaves the records of the parent the same |
| Split.ClimbOn | src/ibtree_alg.c:375-443 | A split step keeps the invariant of the cascade, one level up |
| Split.RootSplitDone | src/ibtree_alg.c:344-374 | The split of the root ends the cascade in a well-formed tree |
| Climb.Finish | src/ibtree_alg.c:444-448 | A write that finds room ends the cascade in a well-formed tree |
| Order.InsertedBetween | src/ibtree.c:174-196 | Sorted insertion of a record between smaller and larger ones puts it there |
| Limits.UnevenHasNoRoom | src/ibtree_alg.c:340-417 | A leaf of nine distinct keys that a page holds; the leaf and its chosen half both refuse a cell of less than a quarter of the page |
| Limits.UnevenExists | src/ibtree_alg.c:340-417 | There is a well-formed tree of that one leaf |
| Limits.UnevenIsRefused | src/ibtree.c:174-196 | Inserting that new smallest key into such a tree ends in NotEnoughSpace, with all records kept |
| IndexDelete.NodeRemoveMatches | src/btree_node.c:646-717 | Removing a cell of a node, or its right child in favour of the last child, gives the page of the node without it; a leaf has no right child to remove |
| IndexDelete.RightChildLost | src/btree_node.c:646-717 | Removing the right child loses its records and the one of the last cell |
| Traverse.TraverseByMover | src/btree_cursor.c:472-512 | Reaches the first or last leaf of a subtree and pushes a crumb for each node below |
| IndexDelete.TakeOut | src/ibtree.c:218-233 | The cell is out of its page (see NodeOnPage.RemoveOnPage) and in the holding node |
| IndexDelete.Promote | src/ibtree.c:235-289 | The last cell of the left subtree takes the place of the removed one if and only if it fits there: the tree has then lost exactly the removed record; otherwise no page has changed since the removal |
| Deletion.PromotedContents | src/ibtree.c:235-289 | Replacing a cell by the last record of its left subtree loses that cell's record and nothing else |
| Deletion.CutOff | src/ibtree.c:230-295 | A cell removed and not replaced leaves a well-formed tree that is short of the cell and of its whole left subtree |
| Deletion.EvenReplaceable | src/ibtree.c:235-289 | In a tree all of whose cells cost the same, the largest record of a left subtree always fits |
| IndexDelete.DeleteSingle | src/ibtree.c:198-308 | On Ok and Underflow: the records without that key, balanced, same root; the pages are the old ones less the overflow pages of the removed payload; no other page changes. Underflow comes if and only if the leaf that gave up a cell has fewer cells left than the limit; the top crumb names that leaf, and no node is empty unless that leaf is. NotEnoughSpace comes if and only if an internal node holds the key and its replacement does not fit; the left subtree is then cut off |
| Deletion.LastLeafBelow | src/btree_cursor.c:472-512 | The leaf at the right end of a subtree, which gives up its last cell, is the one at the end of the path down the right children |
| Deletion.PromotedFilled | src/ibtree.c:235-289 | If that leaf keeps a cell, moving its last cell up leaves no node empty |
| Order.DeletedBetween | src/ibtree.c:198-308 | Deleting a record from increasing records takes out that one |
| Sibling.GoToSibling | src/btree_cursor.c:526-622 | Goes to the neighbouring child of the same parent, or restores the crumbs when there is none |
| IndexRotate.SiblingExists | src/btree_cursor.c:526-622 | A sibling is found if and only if the child is not the first, or not the last, of its parent |
| Rotation.RightKeepsContents | src/ibtree_alg.c:464-652 | A rotation to the right leaves the records of the tree in order as they were |
| Rotation.LeftKeepsContents | src/ibtree_alg.c:464-652 | So does one to the left |
| Rotation.RightThenLeft | src/ibtree_alg.c:464-652 | Right and then left restores the parent and both children |
| Rotation.LeftThenRight | src/ibtree_alg.c:464-652 | Left and then right does too |
| Rotation.RightKeepsPages | src/ibtree_alg.c:464-652 | A rotation owns the pages that the nodes owned |
| IndexRotate.Rotate | src/ibtree_alg.c:464-652 | With a sibling that has a cell: Ok if and only if the child takes the separator and the parent the nearest cell of the sibling; then the tree is the one that the rotation of the value gives, with the same records, pages, height and root; the child has one cell more, the sibling one fewer, and no other page changes. Refused, no page has changed, or only the child, which then has the separator too |
| RotationRefused.RefusedAboveLeaves | src/ibtree_alg.c:508-582 | A rotation that the parent refuses after the child has taken the separator, above leaves: the records as they were but for the separator's, which is there twice, so they are no longer strictly increasing |
| RotationRefused.RefusedAboveNodes | src/ibtree_alg.c:508-582 | Above internal nodes: no well-formed tree can be read from the root page any more |
| Iterate.MoveRight | src/btree_cursor.c:22-57 | The crumb of the next slot, of the right child after the last cell, or no sibling at the end of a leaf |
| Iterate.IterBegin | src/btree_cursor.c:246-250 | The cursor is at the first leaf slot, and all records lie ahead; an empty tree has none |
| Iterate.ScanPrepare | src/btree_op_scan.c:27-75 | At the first record, or done at once if the tree is empty |
| Iterate.IndexIterNext | src/btree_cursor.c:313-367 | One record fewer lies ahead, cells of internal nodes included; IterDone when it was the last |
| Iterate.TableIterNext | src/btree_cursor.c:252-311 | The same over the leaves of a table tree |
| Iterate.IterNext | src/btree_cursor.c:369-382 | Either kind of tree |
| Iterate.Scan | src/btree_op_scan.c:28-142 | From prepare to the end: every record once and in order, in as many steps as there are records, for every tree of at most eight levels that is empty or has no empty nodes |
| Runs.Run | src/ibtree.c:168-330 | For every run of inserts of new payloads and of deletions that all end in Ok, without rebalancing: a well-formed tree in order, whose payloads are the set that results from the operations on sets |
| Runs.SetDeterminesOrder | src/ibtree.c:168-330 | Two trees in order with the same set of payloads have the same records one by one: how they were built does not show |
| Runs.RunAndScan | src/ibtree.c:168-330 | A scan after such a run gives the payloads of that set, each once, in order |
| Record.LoadedIsSame | src/sql_value.c:220-247 | A value comes back as it was if and only if it is text or an unsigned number of 32 bits |
| Record.LoadedIsCongruent | src/sql_value.c:192-247 | Any other number comes back as the one of 32 bits that differs from it by a multiple of 2 to the 32 |
| Record.EncodedBytes | src/sql_value.c:192-247 | The bytes of a value: four that have the value of the number, or of the length of the text that follows |
| Record.FindColumn | src/sql_record.c:45-55 | The first column of that name, or -1 if there is none |
| Record.FindPrimary | src/sql_table.c:125-136 | The first primary key, or -1 if there is none |
| Record.ArraySize | src/sql_value.c:79-107 | The sum of the encoded sizes |
| Record.SumOfPermutation | src/sql_ibtree.c:97-141 | Sizes add up to the same in any order of the columns |
| Record.OrderAscends | src/sql_ibtree.c:97-141 | The stored order is the primary key first and the other columns as they stand in the table |
| Record.Serialize | src/sql_ibtree.c:97-141 | Refuses a record with another number of columns or without the key; else fills a buffer of exactly the computed size, key first |
| Record.Deserialize | src/sql_ibtree.c:152-197 | The columns in stored order, with the values that were stored |
| Record.StoreAndLoad | src/sql_ibtree.c:97-196 | Whatever order the record lists its columns in, every column has its value again, numbers cut to 32 bits |
| KeyedRecord.KeyIsInFront | src/sql_ibtree.c:54-82 | With a text as its primary key, a stored record has the layout that the comparison expects with key offset 0, and a search key is encoded the same way |
| KeyedRecord.CompareStored | src/ibtree_layout_schema_cmp.c:184-331 | Such a record against a search key: for any cut into windows the order of its primary key comes out if and only if that is no strict prefix of the search key and, unless that is empty, no window ends with the fourth byte of the record |

## Left out

- IndexDelete.DeleteSingle: states the deletion on nodes as sequences of cells; on the pages it is that only when every removal meets `SlidesClear`. The overflow pages of the removed payload stay in use, as in the code.
- IndexDelete.TakeOut: the same restriction on the removal from the page.
- IndexDelete.Promote: the same restriction on the removal from the leaf.
- IndexRotate.Rotate: the same restriction on the removals from parent and sibling.
- Overflow.Delete: the same restriction on the removal of the cell.
- SlottedPage.SlottedPage.Remove: the branch of `btree_node_remove` that makes the last cell the right child is on sequences of cells only (`IndexDelete.NodeRemoveMatches`).
- IndexInsert.Insert: requires a non-empty payload and increasing records; what a refused insert leaves is stated only if no internal node held the payload.
- Iterate.Scan: requires that no node of a non-empty tree is empty, although `btree_iter_next` would also walk a table tree whose internal nodes have only a right child.
- Table trees: inserting into them (`btree_insert`), searching, rotating and merging their nodes; only their iteration is modelled.
- Merging nodes and the rebalance driver (`ibta_merge`, `ibta_rebalance`, `ibta_rebalance_root`), which call deletion and rotation in turn; `Underflow` is where the model ends.
- Runs.Run: stops at the first operation that does not end in Ok, `Underflow` included, because the rebalancing that follows it is not modelled.
- Filling of structures in memory: `PageImage.dfy` lays out the header of a node and its slots as a little-endian machine with 32-bit fields does, which the code leaves to the compiler.
- `SchemaCompare`: several keys in one record, and keys of fixed size.
- 32-bit wrap-around of page ids and counters: page ids and sizes are natural numbers, except where the code encodes them in 32 bits (`Bytes.Le32RoundTrip`, `NodeOnPage.Encodable`, `MovedIndex`).
- Trees with their root on page 1: nodes of a tree are on pages above 1; the first page is modelled with its file header for single nodes (`Overflow.dfy`).
- `btree_node_move_cell_from_data` for a cell that is too large for its new node, which would have to be spilled again: all nodes of a tree have the same capacity here.
- Page buffers of the cache are values: a caller that keeps using a page of the cache past its release is not modelled.
- File input and output, memory allocation and their errors; the parser, the planner and the SQL front end above the record layer.
- Updating and deleting rows during a scan (`btree_op_update.c`, `btree_op_select.c`).
