# MiniSQL storage engine core, modelled in Dafny

This project models the storage engine of MiniSQL, a small relational database. Each layer is modelled from the bottom up:

- **Disk manager.** It maps logical pages onto a database file. The file holds a meta page and one allocation bitmap page per extent.
- **Bitmap page.** It tracks which pages of an extent are allocated.
- **LRU replacer and buffer pool manager.** They cache disk pages in a fixed set of frames and pin, unpin, flush and evict them.
- **B+ tree index.** This covers its leaf and internal pages and its iterator.
- **Record layer.** This is the byte layout of columns, schemas and rows.
- **Catalog.** It records tables and indexes and persists its own meta page, table meta and index meta.
- **Execute engine.** This is the database-level commands and the statement dispatcher.

Each component with state is modelled in two layers:

- **Specification layer.** A value datatype holds the component's state. Transition functions say what each source operation does, including its error paths. Lemmas prove what the operations promise, such as the invariant each one keeps, the lookups it changes and round trips.
- **Implementation layer.** A class with the source's fields has methods named after the source's methods. Each method's contract ties the new state to the transition function (`State() == Fetched(old(State()), p)`). The methods work on arrays and loops where the source does.

Pure code is modelled as functions and lemmas. This covers the byte codecs, the page layouts and the tree algorithms over an abstract page store.

**Where the source is wrong.** Where it evidently does not do what its authors meant, the model keeps both versions:

- a member that follows the code as written, together with a lemma that exhibits the failure;
- a corrected member that the rest of the model uses (see "## Findings").

**The B+ tree's invariant.** `TreeShape.Shaped` gives each page a span: the keys its subtree may hold and its height above the leaves. A tree is shaped when the following hold:

- every page points to its parent, and the parent lists it;
- leaves hold sorted entries inside their span;
- internal pages hold increasing routing keys, with children one level lower that keep to their slot's keys;
- the root spans every key.

The leaves' next links are not part of this invariant (see "## Left out").

`WellFormed` says that some spans shape the tree. On a well-formed tree, GetValue finds exactly the entries the leaves hold (`TreeShape.SearchHolds`). Insert and Remove keep a tree well-formed and change the search only at their key (`TreeInsert.InsertedWellFormed`, `TreeRemove.DeletedWellFormed`).

**Integers.** The source's fixed-width integers are unbounded here. Wrap-around is written out where it matters (`u32` counters, the 32-bit size sums). Bytes are integers from 0 to 255 (`Bytes.byte`); only the row's null bitmap uses `bv8`, for its bit operations.

## Model

| member | source | states |
|---|---|---|
| Lru.InitEmpty | src/buffer/lru_replacer.cpp:3-6 | a new replacer satisfies the invariant, has an empty eviction order and size 0, and Victim on it fails without change |
| Lru.QueueIsEvictable | src/buffer/lru_replacer.cpp:10-31 | under the invariant the live entries of the queue are exactly the evictable frames, each once: the stamp scheme never offers a frame twice |
| Lru.VictimFailsWhenEmpty | src/buffer/lru_replacer.cpp:10-11 | Victim fails exactly when size is 0, which is exactly when no frame is evictable, and then changes nothing |
| Lru.VictimTakesOldest | src/buffer/lru_replacer.cpp:10-17 | with size > 0 Victim returns the front of the eviction order (the frame unpinned longest ago), which stops being evictable; the order loses exactly that frame, size drops by one and the invariant holds |
| Lru.EvictedFacts | src/buffer/lru_replacer.cpp:10-17 | Victim in terms of evictability: a returned frame was evictable, it alone stops being evictable, and failure means nothing was evictable |
| Lru.FirstLive | src/buffer/lru_replacer.cpp:12 | the stale-entry skipping loop stops at the first entry carrying its frame's current stamp, and the eviction order starts with that frame |
| Lru.PinRemoves | src/buffer/lru_replacer.cpp:19-24 | Pin takes an evictable frame out of the eviction order (size drops by one), is a no-op on any other frame, changes no other frame's evictability and keeps the invariant |
| Lru.UnpinAppends | src/buffer/lru_replacer.cpp:26-31 | Unpin appends a non-evictable frame to the back of the eviction order (size grows by one), is a no-op on an evictable one, changes no other frame and keeps the invariant |
| Lru.UnpinQueue | src/buffer/lru_replacer.cpp:29-30 | the pushed entry makes the frame the last of the eviction order |
| Lru.UnpinIdempotent | src/buffer/lru_replacer.cpp:26-31 | unpinning twice is unpinning once |
| Lru.LRUReplacer.constructor | src/buffer/lru_replacer.cpp:3-6 | the object starts in the initial state with the given capacity |
| Lru.LRUReplacer.Victim | src/buffer/lru_replacer.cpp:10-17 | the loop over stale entries and the pops leave the object in the state Evicted gives, returning its frame |
| Lru.LRUReplacer.Pin | src/buffer/lru_replacer.cpp:19-24 | the new state is Pinned of the old |
| Lru.LRUReplacer.Unpin | src/buffer/lru_replacer.cpp:26-31 | the new state is Unpinned of the old |
| Lru.LRUReplacer.Size | src/buffer/lru_replacer.cpp:33-35 | returns the length of the eviction order (the size counter, by the invariant) |
| BufferPool.Blank | src/buffer/buffer_pool_manager.cpp:93-96 | a reset frame holds no page, is unpinned, clean and a whole zeroed page |
| BufferPool.TakeFrame | src/buffer/buffer_pool_manager.cpp:33-38 | picking a frame changes only the free list and the replacer and returns a frame of the pool |
| BufferPool.Flushed | src/buffer/buffer_pool_manager.cpp:114-120 | FlushPage changes only the frame's dirty flag and the disk's page bytes, never the meta counters, and keeps the disk valid |
| BufferPool.Vacate | src/buffer/buffer_pool_manager.cpp:39-42 | writing back and unmapping a frame's old page keeps the free list, replacer, allocation counters and disk validity |
| BufferPool.InitCorrect | src/buffer/buffer_pool_manager.cpp:5-12 | a new pool satisfies the invariant, every frame is on the free list, nothing is pinned and every page reads as on disk |
| BufferPool.TakeFrameCorrect | src/buffer/buffer_pool_manager.cpp:33-38 | taking a frame fails exactly when every frame is pinned; otherwise it is the free list's front (holding no page) or, with the free list empty, the frame the replacer offered longest, holding an unpinned page |
| BufferPool.TakeFrameFails | src/buffer/buffer_pool_manager.cpp:37 | a failed take changes nothing |
| BufferPool.VacateCorrect | src/buffer/buffer_pool_manager.cpp:39-42 | after vacating, the frame's page is unmapped and, if it was dirty, the disk holds the frame's bytes for it; nothing else changes |
| BufferPool.ReplaceFrameCorrect | src/buffer/buffer_pool_manager.cpp:43-50 | after a miss installs a page the invariant holds again, every other page reads as before and no pinned page moved or changed |
| BufferPool.FetchPageHit | src/buffer/buffer_pool_manager.cpp:24-30 | FetchPage of a cached page returns its frame with one more pin, no longer offered for eviction, and changes no other frame |
| BufferPool.FetchPageHitKeepsInv | src/buffer/buffer_pool_manager.cpp:24-30 | a hit keeps the invariant and every page's contents |
| BufferPool.FetchPageMiss | src/buffer/buffer_pool_manager.cpp:31-50 | a miss fails without change exactly when every frame is pinned; otherwise the taken frame holds the page's disk bytes, pinned once and clean |
| BufferPool.FetchPageMissKeepsInv | src/buffer/buffer_pool_manager.cpp:31-50 | a miss keeps the invariant and every page's contents as seen through the pool |
| BufferPool.NewPageCorrect | src/buffer/buffer_pool_manager.cpp:53-79 | NewPage fails without change exactly when every frame is pinned; otherwise the id returned was free on disk and uncached, is now allocated and cached pinned once and dirty |
| BufferPool.NewPageKeepsInv | src/buffer/buffer_pool_manager.cpp:53-79 | NewPage keeps the invariant and every other page's contents |
| BufferPool.UnpinPageCorrect | src/buffer/buffer_pool_manager.cpp:102-112 | UnpinPage refuses an uncached page without change; otherwise the pin count drops by one but not below 0, the dirty flag is ORed in, and the frame is offered for eviction exactly when its count is 0 |
| BufferPool.UnpinPageKeepsInv | src/buffer/buffer_pool_manager.cpp:102-112 | UnpinPage keeps the invariant and every page's contents |
| BufferPool.Unpinned | src/buffer/buffer_pool_manager.cpp:102-112 | no contract of its own; UnpinPageCorrect and UnpinPageKeepsInv state what the corrected UnpinPage does |
| BufferPool.UnpinnedAsWritten | src/buffer/buffer_pool_manager.cpp:106-109 | no contract of its own; UnpinPageAsWrittenOffersPinnedFrame and UnpinPageAsWrittenEvictsPinnedPage state what goes wrong |
| BufferPool.UnpinPageAsWrittenOffersPinnedFrame | src/buffer/buffer_pool_manager.cpp:106-109 | with the source's unconditional replacer Unpin, a page pinned twice and unpinned once is offered for eviction, breaking the invariant |
| BufferPool.UnpinPageAsWrittenEvictsPinnedPage | src/buffer/buffer_pool_manager.cpp:106-109 | continuing that run, fetching another page evicts the still-pinned page |
| BufferPool.UnpinPageKeepsTwicePinnedFrame | src/buffer/buffer_pool_manager.cpp:102-112 | on the same pool the corrected UnpinPage keeps the frame out of the replacer and the second fetch fails instead |
| BufferPool.FlushPageCorrect | src/buffer/buffer_pool_manager.cpp:114-120 | FlushPage refuses an uncached page; for a cached one the disk afterwards holds the frame's bytes and the frame is clean |
| BufferPool.FlushPageKeepsInv | src/buffer/buffer_pool_manager.cpp:114-120 | FlushPage keeps the invariant and every page's contents |
| BufferPool.DeletePageCorrect | src/buffer/buffer_pool_manager.cpp:81-100 | DeletePage refuses a pinned page without change; otherwise the page is free on disk and uncached, its frame is blank at the back of the free list and no other page's allocation changed |
| BufferPool.DeletePageKeepsInv | src/buffer/buffer_pool_manager.cpp:81-100 | DeletePage keeps the invariant and every other page's contents |
| BufferPool.Deleted | src/buffer/buffer_pool_manager.cpp:81-100 | no contract of its own; DeletePageCorrect and DeletePageKeepsInv state what the corrected DeletePage does |
| BufferPool.DeletedAsWritten | src/buffer/buffer_pool_manager.cpp:83-90 | no contract of its own; DeletePageAsWrittenFreesPinnedPage states what goes wrong |
| BufferPool.DeletePageAsWrittenFreesPinnedPage | src/buffer/buffer_pool_manager.cpp:83-90 | with the source's deallocation before the pin check, a refused delete of a pinned page has already freed it on disk while it stays cached, breaking the invariant |
| BufferPool.BufferPoolManager.constructor | src/buffer/buffer_pool_manager.cpp:5-12 | the object starts in Init over the disk manager's state |
| BufferPool.BufferPoolManager.PickFrame | src/buffer/buffer_pool_manager.cpp:33-38 | the frame search, as TakeFrame |
| BufferPool.BufferPoolManager.ClearFrame | src/buffer/buffer_pool_manager.cpp:39-42 | the write-back and unmapping, as Vacate |
| BufferPool.BufferPoolManager.FetchPage | src/buffer/buffer_pool_manager.cpp:22-51 | the new state and the frame returned are Fetched of the old state |
| BufferPool.BufferPoolManager.NewPage | src/buffer/buffer_pool_manager.cpp:53-79 | the new state and the id and frame returned are Created of the old state |
| BufferPool.BufferPoolManager.UnpinPage | src/buffer/buffer_pool_manager.cpp:102-112 | the new state and the answer are Unpinned (corrected) of the old state |
| BufferPool.BufferPoolManager.FlushPage | src/buffer/buffer_pool_manager.cpp:114-120 | the new state and the answer are Flushed of the old state |
| BufferPool.BufferPoolManager.DeletePage | src/buffer/buffer_pool_manager.cpp:81-100 | the new state and the answer are Deleted (corrected) of the old state |
| BufferPool.BufferPoolManager.IsPageFree | src/buffer/buffer_pool_manager.cpp:131-133 | answers the disk's IsFree for the page |
| BufferPool.BufferPoolManager.CheckAllUnpinned | src/buffer/buffer_pool_manager.cpp:136-145 | true exactly when no frame is pinned (the loop over all frames) |
| Bitmap.SetBitEffect | src/page/bitmap_page.cpp:38-40 | writing a bit sets that bit to the value written and leaves the byte's other bits alone |
| Bitmap.SetBitUndo | src/page/bitmap_page.cpp:38-40 | setting then clearing a bit restores the byte |
| Bitmap.SetPageReadBack | src/page/bitmap_page.cpp:22-35 | after SetPage the written offset reads back as written and every other offset reads as before |
| Bitmap.SetPageOtherBits | src/page/bitmap_page.cpp:27-40 | SetPage leaves every other (byte, bit) position unchanged |
| Bitmap.CountAfterSet | src/page/bitmap_page.cpp:33-35 | setting a clear bit adds one to the count of allocated offsets, clearing a set one subtracts one |
| Bitmap.FirstFreeFrom | src/page/bitmap_page.cpp:9 | the scan finds the lowest free offset at or after its start, or MAX_SUPPORTED_SIZE when none is free |
| Bitmap.NotFullHintInside | src/page/bitmap_page.cpp:4-7 | a page that is not full has its hint inside the page, so the offset handed out is valid |
| Bitmap.EmptyInv | src/page/bitmap_page.cpp:4-20 | the zeroed page satisfies the invariant |
| Bitmap.AllocateFailsOnlyWhenFull | src/page/bitmap_page.cpp:4-6 | allocation fails exactly when every offset is allocated, and then changes nothing |
| Bitmap.AllocateCorrect | src/page/bitmap_page.cpp:4-11 | a successful allocation returns a free offset (the lowest), sets its bit, changes no other bit, and keeps the invariant with the count one higher |
| Bitmap.DeallocateCorrect | src/page/bitmap_page.cpp:14-20 | freeing refuses an offset that is already free without change; otherwise it clears that bit only, lowers the count and keeps the invariant |
| Bitmap.AllocateThenFree | src/page/bitmap_page.cpp:4-20 | freeing the offset just allocated restores the page exactly |
| Bitmap.Allocate | src/page/bitmap_page.cpp:4-11 | no contract of its own; AllocateFailsOnlyWhenFull, AllocateCorrect and AllocateThenFree state what the corrected allocation does |
| Bitmap.ScanCount | src/page/bitmap_page.cpp:9 | the as-written loop advances the allocated-page count over allocated offsets, never past MAX_SUPPORTED_SIZE |
| Bitmap.AllocateAsWrittenEffects | src/page/bitmap_page.cpp:4-11 | the as-written allocation fails without change on a full page; otherwise it returns the old hint, advances the hint by one and sets that offset's bit |
| Bitmap.AllocateAsWrittenReusesAllocatedOffset | src/page/bitmap_page.cpp:7-9 | from an empty page: allocate 0, 1, 2, free 0, allocate again; the hint then names offset 1, which is allocated, and the next allocation hands 1 out a second time |
| Bitmap.AllocateFirstByteAsWritten | src/page/bitmap_page.cpp:4-11 | one as-written allocation step on a page whose set bits all lie in its first byte |
| Bitmap.AllocateAsWritten | src/page/bitmap_page.cpp:4-11 | no contract of its own; AllocateAsWrittenEffects and AllocateAsWrittenReusesAllocatedOffset state what it does and how it goes wrong |
| Bitmap.ImageRoundTrip | src/page/bitmap_page.cpp:3-40 | reinterpreting the page image of a bitmap page gives that page back |
| Bitmap.ZeroPageIsEmpty | src/page/bitmap_page.cpp:3-40 | a zero-filled page buffer reads as the empty bitmap page |
| Bitmap.BitmapPage.IsPageFree | src/page/bitmap_page.cpp:22-30 | answers whether the offset's bit is clear |
| Bitmap.BitmapPage.SetPageLow | src/page/bitmap_page.cpp:37-40 | replaces one byte by the byte with one bit written |
| Bitmap.BitmapPage.SetPage | src/page/bitmap_page.cpp:32-35 | the new bytes are SetPageBits of the old |
| Bitmap.BitmapPage.AllocatePage | src/page/bitmap_page.cpp:4-11 | the new state, success flag and offset are those of the corrected Allocate |
| Bitmap.BitmapPage.AdvanceHint | src/page/bitmap_page.cpp:9 | the corrected scan moves the hint to the first free offset from where it was |
| Bitmap.BitmapPage.DeAllocatePage | src/page/bitmap_page.cpp:14-20 | the new state and the answer are Deallocate of the old |
| Disk.ReadShort | src/storage/disk_manager.cpp:98-119 | a page past the end of the file or a short page reads as the bytes present followed by zeros |
| Disk.ReadAfterWrite | src/storage/disk_manager.cpp:98-133 | a physical page reads as it was last written, and writes elsewhere do not disturb it |
| Disk.MapPageIdIncreasing | src/storage/disk_manager.cpp:88-90 | logical pages map to distinct, increasing physical pages past the meta page |
| Disk.BitmapAsWrittenOverlapsData | src/storage/disk_manager.cpp:56 | as the source places it, extent 1's bitmap is the physical page of logical page BITMAP_SIZE - 1 |
| Disk.WritePageClobbersBitmapAsWritten | src/storage/disk_manager.cpp:39-42 | writing logical page BITMAP_SIZE - 1 replaces that bitmap with the page's data |
| Disk.BitmapPageIdAsWritten | src/storage/disk_manager.cpp:56 | no contract of its own; BitmapAsWrittenOverlapsData and WritePageClobbersBitmapAsWritten state the page it shares with data |
| Disk.BitmapPageIdDisjoint | src/storage/disk_manager.cpp:88-90 | the corrected bitmap pages, the meta page and the data pages are pairwise distinct |
| Disk.BitmapPageId | src/storage/disk_manager.cpp:56 | no contract of its own; BitmapPageIdDisjoint states that the corrected bitmap pages clash with no other page |
| Disk.U32sRoundTrip | src/storage/disk_manager.cpp:45-53 | decoding the encoded extent counters gives them back |
| Disk.MetaImageRoundTrip | src/storage/disk_manager.cpp:45-53 | reading back a written meta page image gives the meta data back |
| Disk.MetaImageOfImage | src/storage/disk_manager.cpp:23 | re-encoding the meta data read from any page gives that page back |
| Disk.OpenMirrorsMeta | src/storage/disk_manager.cpp:8-24 | after opening, the in-memory meta data mirrors the file's meta page |
| Disk.OpenEmptyFile | src/storage/disk_manager.cpp:8-24 | a new, empty file gives a consistent allocator with no pages and no extents |
| Disk.FirstExtentWithRoom | src/storage/disk_manager.cpp:49-50 | the extent search returns the first extent with a free page, or the extent count when none has one |
| Disk.AllocateMetaConsistent | src/storage/disk_manager.cpp:44-53 | AllocatePage's counter updates keep the counters consistent, within the meta page's extent slots |
| Disk.DeallocateMetaConsistent | src/storage/disk_manager.cpp:64-71 | DeAllocatePage's counter updates keep the counters consistent and count one page fewer |
| Disk.CommitEffect | src/storage/disk_manager.cpp:53-60 | after the meta write and the bitmap write the file holds the new meta page and bitmap, and every other bitmap and data page as before |
| Disk.AllocateCorrect | src/storage/disk_manager.cpp:44-62 | the page returned was free and is now allocated, lies in the chosen extent below MAX_VALID_PAGE_ID, no other page changed state, the allocated count grew by one and the allocator stays valid |
| Disk.DeallocateCorrect | src/storage/disk_manager.cpp:64-79 | freeing an allocated page frees it, changes no other page's state, counts one page fewer and keeps the allocator valid |
| Disk.WritePageKeepsValid | src/storage/disk_manager.cpp:39-42 | writing a data page keeps the allocator valid and every page's allocation state |
| Disk.PageDataAfterWrite | src/storage/disk_manager.cpp:34-42 | a logical page reads as it was last written, and writes to other logical pages do not disturb it |
| Disk.AllocateKeepsData | src/storage/disk_manager.cpp:44-62 | allocation changes no logical page's bytes |
| Disk.DeallocateKeepsData | src/storage/disk_manager.cpp:64-79 | deallocation changes no logical page's bytes |
| Disk.WritePageDataKeeps | src/storage/disk_manager.cpp:39-42 | a data write keeps the meta data, validity and every page's allocation state |
| Disk.DiskManager.constructor | src/storage/disk_manager.cpp:8-24 | the object starts as Open of the file |
| Disk.DiskManager.ReadPage | src/storage/disk_manager.cpp:34-37 | returns the logical page's bytes |
| Disk.DiskManager.WritePage | src/storage/disk_manager.cpp:39-42 | the new state is WritePageData of the old |
| Disk.DiskManager.AllocatePage | src/storage/disk_manager.cpp:44-62 | the new state and the id are Allocate of the old state |
| Disk.DiskManager.ChooseExtent | src/storage/disk_manager.cpp:48-51 | the loop returns the allocation extent, inside the meta page's slots |
| Disk.DiskManager.CountAllocation | src/storage/disk_manager.cpp:47-53 | counts the page in the extent and writes the meta page |
| Disk.DiskManager.AllocateInExtent | src/storage/disk_manager.cpp:55-60 | reads the extent's bitmap, allocates in it and writes it back |
| Disk.DiskManager.DeAllocatePage | src/storage/disk_manager.cpp:64-79 | the new state is Deallocate of the old |
| Disk.DiskManager.IsPageFree | src/storage/disk_manager.cpp:81-86 | answers IsFree for the page |
| Leaf.LowerBound | src/page/b_plus_tree_leaf_page.cpp:45-52 | the position KeyIndex finds: every earlier key is below the search key and the key there, if any, is at least it |
| Leaf.Find | src/page/b_plus_tree_leaf_page.cpp:153-174 | a lookup fails exactly when no entry carries the key, and a found value is that of an entry with the key |
| Leaf.FindSorted | src/page/b_plus_tree_leaf_page.cpp:153-174 | in sorted entries every slot's key finds that slot's value |
| Leaf.InsertedSorted | src/page/b_plus_tree_leaf_page.cpp:86-116 | inserting a fresh key keeps the entries sorted and adds exactly the new entry (as a multiset), growing the page by one |
| Leaf.InsertedFind | src/page/b_plus_tree_leaf_page.cpp:86-116 | after the insert the new key finds its value and every other key finds what it found before |
| Leaf.RemovedSorted | src/page/b_plus_tree_leaf_page.cpp:186-197 | removing keeps the entries sorted, leaves the key absent, drops one entry exactly when the key was present and keeps every other key's value |
| Leaf.RemovedAbsent | src/page/b_plus_tree_leaf_page.cpp:186-197 | removing an absent key changes nothing |
| Leaf.LeafPage.constructor | src/page/b_plus_tree_leaf_page.cpp:16-24 | a zeroed page buffer with room for the given number of entries |
| Leaf.LeafPage.Init | src/page/b_plus_tree_leaf_page.cpp:16-24 | no entries, the given page, parent and maximum size, and no next leaf |
| Leaf.LeafPage.KeyIndex | src/page/b_plus_tree_leaf_page.cpp:45-52 | the linear scan returns the first slot whose key is at least the search key, or the size |
| Leaf.LeafPage.KeyAt | src/page/b_plus_tree_leaf_page.cpp:59-64 | returns the key of an occupied slot (the ASSERT is the precondition) |
| Leaf.LeafPage.GetItem | src/page/b_plus_tree_leaf_page.cpp:71-76 | returns the entry of an occupied slot |
| Leaf.LeafPage.Insert | src/page/b_plus_tree_leaf_page.cpp:86-116 | the entries become Inserted of the old ones, the new size is returned, and the ids and maximum size are unchanged |
| Leaf.LeafPage.Lookup | src/page/b_plus_tree_leaf_page.cpp:153-174 | the binary search answers true exactly when an entry carries the key, with that entry's value |
| Leaf.LeafPage.RemoveAndDeleteRecord | src/page/b_plus_tree_leaf_page.cpp:186-197 | the entries become Removed of the old ones and the new size is returned |
| Leaf.LeafPage.CopyNFrom | src/page/b_plus_tree_leaf_page.cpp:136-142 | the given entries are appended |
| Leaf.LeafPage.MoveHalfTo | src/page/b_plus_tree_leaf_page.cpp:125-130 | the last (size+1)/2 entries move, in order, to the end of the recipient; nothing else changes |
| Leaf.LeafPage.MoveAllTo | src/page/b_plus_tree_leaf_page.cpp:207-213 | every entry is appended to the recipient, which takes over this page's next-leaf link |
| Leaf.LeafPage.MoveFirstToEndOf | src/page/b_plus_tree_leaf_page.cpp:223-232 | the first entry moves to the end of the recipient |
| Leaf.LeafPage.CopyLastFrom | src/page/b_plus_tree_leaf_page.cpp:238-243 | the entry is appended |
| Leaf.LeafPage.MoveLastToFrontOf | src/page/b_plus_tree_leaf_page.cpp:249-255 | the last entry moves to the front of the recipient |
| Leaf.LeafPage.CopyFirstFrom | src/page/b_plus_tree_leaf_page.cpp:262-269 | the entry is put in front, the others moving up one slot |
| Internal.ChildIndex | src/page/b_plus_tree_internal_page.cpp:43-49 | ValueIndex's answer: the first slot holding the child, or the size when none does |
| Internal.RouteIndex | src/page/b_plus_tree_internal_page.cpp:77-88 | the slot covering a key: slot 0 below the first routing key, else the slot whose key is at most the search key and whose successor's key is above it; on sorted keys no later routing key is at most the search key |
| Internal.WithKey | src/page/b_plus_tree_internal_page.cpp:32-36 | SetKeyAt changes one slot's key, no child and nothing for an index outside the slots |
| Internal.FirstMoved | src/page/b_plus_tree_internal_page.cpp:242-259 | the page left by MoveFirstToEndOf has one slot fewer and all but the old child 0 |
| Internal.FrontAdded | src/page/b_plus_tree_internal_page.cpp:309-323 | the page left by CopyFirstFrom has one more slot and exactly one more child |
| Internal.InsertedAfterShape | src/page/b_plus_tree_internal_page.cpp:115-129 | inserting after a present child adds exactly one slot right after it and keeps the other slots in order |
| Internal.InsertedAfterSorted | src/page/b_plus_tree_internal_page.cpp:115-129 | a key between the present child's routing key and the next keeps the routing keys sorted |
| Internal.InsertedAfterAsWrittenLosesChild | src/page/b_plus_tree_internal_page.cpp:115-129 | as written the page does not grow: inserting after the last child loses the new child, inserting elsewhere loses the last child |
| Internal.InsertedAfter | src/page/b_plus_tree_internal_page.cpp:115-129 | no contract of its own; InsertedAfterShape and InsertedAfterSorted state the corrected insert |
| Internal.InsertedAfterAsWritten | src/page/b_plus_tree_internal_page.cpp:115-129 | no contract of its own; InsertedAfterAsWrittenLosesChild states the child it loses |
| Internal.LookupAsWrittenAgrees | src/page/b_plus_tree_internal_page.cpp:77-88 | on sorted routing keys the written Lookup, whenever it returns, returns the covering child |
| Internal.LookupAsWrittenMissesGap | src/page/b_plus_tree_internal_page.cpp:77-88 | a key strictly between two routing keys makes the written Lookup fall off its end without a result |
| Internal.LookupAsWritten | src/page/b_plus_tree_internal_page.cpp:77-88 | no contract of its own; LookupAsWrittenAgrees and LookupAsWrittenMissesGap state where it agrees with RouteIndex and where it has no result |
| Internal.InternalPage.constructor | src/page/b_plus_tree_internal_page.cpp:14-19 | a zeroed page buffer with room for the given number of slots |
| Internal.InternalPage.Init | src/page/b_plus_tree_internal_page.cpp:14-19 | sets the ids and the maximum size; the slots and the size stay as they were |
| Internal.InternalPage.KeyAt | src/page/b_plus_tree_internal_page.cpp:25-29 | returns the key of an occupied slot |
| Internal.InternalPage.SetKeyAt | src/page/b_plus_tree_internal_page.cpp:32-36 | the slots become WithKey of the old ones |
| Internal.InternalPage.ValueIndex | src/page/b_plus_tree_internal_page.cpp:43-49 | returns ChildIndex of the slots |
| Internal.InternalPage.ValueAt | src/page/b_plus_tree_internal_page.cpp:56-60 | returns the child of an occupied slot |
| Internal.InternalPage.SetValueAt | src/page/b_plus_tree_internal_page.cpp:63-66 | sets the child of a slot in use below the maximum size, and changes nothing otherwise |
| Internal.InternalPage.Lookup | src/page/b_plus_tree_internal_page.cpp:77-88 | returns the child of RouteIndex: the covering child for every key (the corrected search) |
| Internal.InternalPage.PopulateNewRoot | src/page/b_plus_tree_internal_page.cpp:100-107 | the page holds exactly the old child and the new key with the new child |
| Internal.InternalPage.InsertNodeAfter | src/page/b_plus_tree_internal_page.cpp:115-129 | the slots become InsertedAfter (corrected, growing by one) and the new size is returned |
| Internal.InternalPage.MoveHalfTo | src/page/b_plus_tree_internal_page.cpp:138-145 | the last (size+1)/2 slots move, in order, to the end of the recipient |
| Internal.InternalPage.CopyNFrom | src/page/b_plus_tree_internal_page.cpp:152-169 | the given slots are appended |
| Internal.InternalPage.Remove | src/page/b_plus_tree_internal_page.cpp:180-189 | the slot is cut out, closing the gap |
| Internal.InternalPage.RemoveAndReturnOnlyChild | src/page/b_plus_tree_internal_page.cpp:196-201 | a page with one child is emptied and returns that child |
| Internal.InternalPage.MoveAllTo | src/page/b_plus_tree_internal_page.cpp:214-228 | every slot is appended to the recipient, with the middle key written over slot 0's sentinel first |
| Internal.InternalPage.MoveFirstToEndOf | src/page/b_plus_tree_internal_page.cpp:242-259 | child 0 moves under the middle key to the end of the recipient, and the page becomes FirstMoved |
| Internal.InternalPage.CopyLastFrom | src/page/b_plus_tree_internal_page.cpp:266-278 | the slot is appended |
| Internal.InternalPage.MoveLastToFrontOf | src/page/b_plus_tree_internal_page.cpp:288-302 | the last child moves to the front of the recipient, whose old child 0 goes under the middle key |
| Internal.InternalPage.CopyFirstFrom | src/page/b_plus_tree_internal_page.cpp:309-323 | the page becomes FrontAdded of the old slots |
| TreeNode.Node.WithParent | src/page/b_plus_tree_internal_page.cpp:152-169 | setting a page's parent id changes nothing else about the page |
| TreeNode.Adopt | src/page/b_plus_tree_internal_page.cpp:152-169 | adoption gives exactly the listed pages the new parent and changes no other page |
| IndexIter.Advanced | src/index/index_iterator.cpp:26-43 | operator++ moves one slot right within a leaf; from the last slot it moves to slot 0 of the next leaf, or one past the end on the rightmost leaf |
| IndexIter.AdvanceWithinLeaf | src/index/index_iterator.cpp:26-43 | within a leaf ++ designates the next entry, which on a sorted leaf has a larger key |
| IndexIter.AdvanceAcrossLeaves | src/index/index_iterator.cpp:28-37 | from a leaf's last entry ++ designates the first entry of the next leaf |
| IndexIter.IndexIterator.constructor | src/index/index_iterator.cpp:5-12 | the iterator holds the given leaf, slot and flag |
| IndexIter.IndexIterator.Deref | src/index/index_iterator.cpp:20-24 | operator* returns the entry at the current slot |
| IndexIter.IndexIterator.Next | src/index/index_iterator.cpp:26-43 | the new position is Advanced of the old |
| IndexIter.IndexIterator.Equals | src/index/index_iterator.cpp:45-52 | equal exactly when leaf and slot agree |
| IndexIter.IndexIterator.NotEquals | src/index/index_iterator.cpp:54-61 | the negation of operator== |
| BPlusTree.Opened | src/index/b_plus_tree.cpp:9-22 | the root comes from the header page, INVALID when the index has no entry there |
| BPlusTree.Descend | src/index/b_plus_tree.cpp:610-637 | a descent that ends ends at a leaf, and starting at a leaf ends there |
| BPlusTree.LeafFor | src/index/b_plus_tree.cpp:610-637 | FindLeafPage: none on an empty tree, the root when it is a leaf, and always a leaf |
| BPlusTree.Search | src/index/b_plus_tree.cpp:54-69 | GetValue finds a value exactly when the leaf the descent reaches holds the key, and the value is that entry's |
| BPlusTree.DescendSameRouting | src/index/b_plus_tree.cpp:610-637 | the descent reads only internal pages, so stores that route alike descend alike |
| BPlusTree.Started | src/index/b_plus_tree.cpp:100-108 | no contract of its own; InsertIntoEmpty states that the new tree is one root leaf holding just the entry, recorded in the header |
| BPlusTree.LeafSplit | src/index/b_plus_tree.cpp:135-148 | no contract of its own; LeafSplitKeepsEntries states what the two halves hold and how the leaves are linked |
| BPlusTree.LeafInserted | src/index/b_plus_tree.cpp:119-153 | no contract of its own; InsertDuplicate, InsertWithoutSplit and TreeInsert.LeafInsertedWellFormed state its outcomes |
| BPlusTree.Inserted | src/index/b_plus_tree.cpp:82-92 | no contract of its own; InsertIntoEmpty, InsertDuplicate, InsertWithoutSplit and TreeInsert.InsertedWellFormed state its outcomes |
| BPlusTree.SplitEntriesKeeps | src/index/b_plus_tree.cpp:119-153 | a split leaf's halves hold exactly the old entries plus the new one, both sorted and non-empty, the lower wholly below the upper |
| BPlusTree.InsertIntoEmpty | src/index/b_plus_tree.cpp:82-108 | inserting into an empty tree gives one root leaf holding just the entry, and the key is then found |
| BPlusTree.InsertDuplicate | src/index/b_plus_tree.cpp:119-130 | inserting a key already present reports false and changes nothing |
| BPlusTree.InsertWithoutSplit | src/index/b_plus_tree.cpp:119-153 | inserting into a leaf with room reports true, the key is then found with its value and every other key as before |
| BPlusTree.LeafSplitKeepsEntries | src/index/b_plus_tree.cpp:119-195 | splitting a full leaf keeps exactly its entries plus the new one, both halves sorted, and links the new leaf between the old one and its successor |
| BPlusTree.ParentInserted | src/index/b_plus_tree.cpp:207-294 | InsertIntoParent only adds pages, with ids below the next fresh id; TreeInsert.ParentInsertedShaped states that it restores the shape with the same leaves |
| BPlusTree.ParentSplit | src/index/b_plus_tree.cpp:237-291 | the full-parent split adds exactly one fresh internal page and keeps the root |
| BPlusTree.RootSplit | src/index/b_plus_tree.cpp:209-225 | splitting the root puts a fresh root above the old page (child 0) and the new one (under the separator), both pointing to it |
| BPlusTree.ParentWithRoom | src/index/b_plus_tree.cpp:231-236 | a parent with room takes the separator right after the old child, and the new child points to it |
| BPlusTree.ParentSplitSlots | src/index/b_plus_tree.cpp:237-291 | the full parent and the fresh page hold the two halves of the corrected split |
| BPlusTree.SplitSlotsKeepsChildren | src/index/b_plus_tree.cpp:237-283 | the corrected full-parent split keeps every child of the parent plus the new one |
| BPlusTree.SplitSlots | src/index/b_plus_tree.cpp:237-291 | no contract of its own; SplitSlotsKeepsChildren and ParentSplitSlots state that the corrected split keeps every child |
| BPlusTree.SplitSlotsAsWritten | src/index/b_plus_tree.cpp:272-276 | no contract of its own; SplitSlotsAsWrittenLosesChild and SplitSlotsAsWrittenExample state the child it loses |
| BPlusTree.SplitSlotsAsWrittenLosesChild | src/index/b_plus_tree.cpp:272-276 | as written, the split loses exactly one child: the one in slot 0 of the new page |
| BPlusTree.SplitSlotsAsWrittenExample | src/index/b_plus_tree.cpp:272-283 | a four-slot parent split as written: child 30 is in neither page afterwards, while the corrected split keeps it |
| BPlusTree.KeysRepaired | src/index/b_plus_tree.cpp:307-335 | the routing-key repair changes only routing keys: same pages, kinds, leaf entries, root and header |
| BPlusTree.RootAdjusted | src/index/b_plus_tree.cpp:513-542 | AdjustRoot only removes pages |
| BPlusTree.AdjustRootToChild | src/index/b_plus_tree.cpp:513-530 | an internal root with one child hands the root to that child, which has no parent, and the old root page is gone |
| BPlusTree.Redistributed | src/index/b_plus_tree.cpp:466-500 | redistribution keeps the pages, root and header |
| BPlusTree.RedistributeLeavesKeepsEntries | src/index/b_plus_tree.cpp:466-500 | redistributing between two leaves keeps every entry of the pair and changes only the two leaves and the parent |
| BPlusTree.RedistributeInternalSlots | src/index/b_plus_tree.cpp:466-500 | between internal pages one child moves under the parent's separator and the sibling's boundary key replaces the separator |
| BPlusTree.RedistributeInternalKeepsChildren | src/index/b_plus_tree.cpp:466-500 | redistributing between two internal pages keeps every child of the pair |
| BPlusTree.Merged | src/index/b_plus_tree.cpp:410-453 | Coalesce removes the node's page and adds none; TreeRemove.MergedShaped states that with the rebalancing after it the tree stays shaped with every entry |
| BPlusTree.MergeLeavesKeepsEntries | src/index/b_plus_tree.cpp:410-453 | coalescing two leaves appends the node's entries to the neighbour's, passes on the next link, and removes the node and its slot in the parent |
| BPlusTree.Rebalanced | src/index/b_plus_tree.cpp:346-395 | CoalesceOrRedistribute only removes pages; TreeRemove.RebalancedShaped states that the tree stays shaped with every entry |
| BPlusTree.Deleted | src/index/b_plus_tree.cpp:307-335 | Remove only removes pages; TreeRemove.DeletedWellFormed states that the tree stays well-formed and exactly the removed key disappears from the search |
| BPlusTree.RemoveAbsent | src/index/b_plus_tree.cpp:307-335 | removing from an empty tree, or a key that is not found, changes nothing |
| BPlusTree.RemoveFromRootLeaf | src/index/b_plus_tree.cpp:307-335 | removing from a root leaf takes exactly that entry out, keeps every other key findable, and removing the last entry empties the tree |
| BPlusTree.BeginPos | src/index/b_plus_tree.cpp:553-558 | Begin() is slot 0 of a leaf |
| BPlusTree.BeginAtPos | src/index/b_plus_tree.cpp:566-578 | the corrected Begin(key) gives a position exactly when the descent reaches a leaf; it checks the size before reading a key and steps past the leaf from its last slot (see Findings) |
| BPlusTree.BeginAtLands | src/index/b_plus_tree.cpp:566-578 | Begin(key) lands on the key's entry with flag 1 when the leaf holds it; otherwise on the first larger key with flag 0, or one step past the leaf's last entry |
| BPlusTree.BeginAtAsWrittenAborts | src/index/b_plus_tree.cpp:566-578 | as written, Begin(key) on a one-entry tree for a larger key reads KeyAt out of bounds where the end position is intended, and ++ from slot `size` would give slot `size + 1` rather than the end |
| BPlusTree.BeginAtAsWritten | src/index/b_plus_tree.cpp:566-578 | no contract of its own; BeginAtAsWrittenAborts states where it aborts |
| BPlusTree.Rightmost | src/index/b_plus_tree.cpp:586-599 | the descent through last children ends at a leaf |
| BPlusTree.EndPos | src/index/b_plus_tree.cpp:586-599 | End() is one past the last slot of a leaf |
| BPlusTree.AdvanceToEnd | src/index/b_plus_tree.cpp:586-599 | ++ from the last entry of the rightmost leaf reaches End() |
| BPlusTree.DestroyRootLeaf | src/index/b_plus_tree.cpp:25-32 | destroying a one-leaf tree empties it, given one round per entry |
| BPlusTree.Destroyed | src/index/b_plus_tree.cpp:25-32 | no contract of its own; DestroyRootLeaf states that enough rounds empty a one-leaf tree, and TreeRemove.DestroyedWellFormed that every round keeps a tree well-formed and adds no entry |
| BPlusTree.BPlusTree.constructor | src/index/b_plus_tree.cpp:9-22 | the object starts as Opened from the header page |
| BPlusTree.BPlusTree.IsEmpty | src/index/b_plus_tree.cpp:38-43 | true exactly when the root is INVALID |
| BPlusTree.BPlusTree.FindLeafPage | src/index/b_plus_tree.cpp:610-637 | the descent loop returns LeafFor |
| BPlusTree.BPlusTree.GetValue | src/index/b_plus_tree.cpp:54-69 | appends the value and answers true exactly when Search finds the key |
| BPlusTree.BPlusTree.StartNewTree | src/index/b_plus_tree.cpp:100-108 | the new state is Started of the old |
| BPlusTree.BPlusTree.InsertIntoLeaf | src/index/b_plus_tree.cpp:119-153 | the new state and the answer are LeafInserted of the old (whose search behaviour TreeInsert.LeafInsertedWellFormed proves) |
| BPlusTree.BPlusTree.Insert | src/index/b_plus_tree.cpp:82-92 | the new state and the answer are Inserted of the old (whose search behaviour TreeInsert.InsertedWellFormed proves) |
| BPlusTree.BPlusTree.Remove | src/index/b_plus_tree.cpp:307-335 | the new state is Deleted of the old (whose search behaviour TreeRemove.DeletedWellFormed proves) |
| BPlusTree.BPlusTree.Begin | src/index/b_plus_tree.cpp:553-558 | an iterator at BeginPos with flag 0, none on an empty tree |
| BPlusTree.BPlusTree.BeginAt | src/index/b_plus_tree.cpp:566-578 | an iterator at BeginAtPos with its flag |
| BPlusTree.BPlusTree.End | src/index/b_plus_tree.cpp:586-599 | an iterator at EndPos |
| BPlusTree.BPlusTree.Destroy | src/index/b_plus_tree.cpp:25-32 | the new state is Destroyed of the old |
| TreeShape.SearchHolds | src/index/b_plus_tree.cpp:54-69 | on a shaped tree GetValue finds `v` for `k` exactly when some leaf holds the entry (k, v) |
| TreeShape.LeafForReaches | src/index/b_plus_tree.cpp:610-637 | the descent for `k` reaches every leaf whose span holds `k` |
| TreeShape.LeafForSome | src/index/b_plus_tree.cpp:610-637 | on a shaped non-empty tree the descent, leftmost or by key, always ends at a leaf |
| TreeShape.HeightBelowSize | src/index/b_plus_tree.cpp:610-637 | the root sits fewer levels above the leaves than there are pages, so the descent's bound never cuts it short |
| TreeInsert.LeafInsertedWellFormed | src/index/b_plus_tree.cpp:119-153 | InsertIntoLeaf on a non-empty well-formed tree keeps it well-formed, reports true exactly when the key was absent, and changes the search only at that key, through leaf and parent splits |
| TreeInsert.InsertedWellFormed | src/index/b_plus_tree.cpp:82-92 | Insert keeps a well-formed tree well-formed, reports true exactly when the key was absent, and afterwards the search finds the new value for the key (when inserted) and what it found before for every other key |
| TreeInsert.InsertedShaped | src/index/b_plus_tree.cpp:82-153 | Insert on a shaped tree leaves it shaped, reports true exactly when the search did not find the key, and its leaves hold the old entries plus the new one when reported |
| TreeInsert.StartedShaped | src/index/b_plus_tree.cpp:100-108 | StartNewTree gives a shaped tree whose leaves hold exactly the one entry |
| TreeInsert.WidenForKey | src/index/b_plus_tree.cpp:610-637 | the leaf the insert's descent reaches can be given a span holding the key, keeping the tree shaped |
| TreeInsert.InsertRoomShaped | src/index/b_plus_tree.cpp:131-134 | a leaf with room takes the entry: the tree stays shaped and holds exactly the old entries plus the new one |
| TreeInsert.LeafSplitHolds | src/index/b_plus_tree.cpp:135-148 | the split leaf and the fresh one together hold exactly the old entries plus the new one |
| TreeInsert.SplitInsertShaped | src/index/b_plus_tree.cpp:135-148 | a full leaf splits and InsertIntoParent climbs: the tree is shaped again and holds exactly the old entries plus the new one |
| TreeInsert.ParentInsertedShaped | src/index/b_plus_tree.cpp:207-294 | InsertIntoParent, from a tree whose only fault is the unlisted new page and with fuel enough to reach the root, gives a shaped tree with the same leaves |
| TreeInsert.RootSplitShaped | src/index/b_plus_tree.cpp:209-225 | when the split page was the root, the fresh root over the two pages makes the tree shaped with the same leaves |
| TreeInsert.RoomShaped | src/index/b_plus_tree.cpp:231-236 | a parent with room takes the separator right after the split page, and the tree is shaped with the same leaves |
| TreeRemove.DeletedWellFormed | src/index/b_plus_tree.cpp:307-335 | Remove keeps a well-formed tree well-formed; afterwards the search finds nothing for the removed key and what it found before for every other key |
| TreeRemove.DeletedShaped | src/index/b_plus_tree.cpp:307-335 | Remove keeps a shaped tree shaped and its leaves hold exactly the old entries whose key is not the removed one |
| TreeRemove.LeafRemovedHolds | src/index/b_plus_tree.cpp:312-315 | taking the key out of the leaf the search reaches drops exactly the entries with that key |
| TreeRemove.LeafRemovedShape | src/index/b_plus_tree.cpp:312-315 | taking entries out of a leaf keeps the tree shaped |
| TreeRemove.RepairShaped | src/index/b_plus_tree.cpp:316-328 | raising the parent's (and, for a first child, the grandparent's) routing key to the leaf's new first key keeps the tree shaped and every leaf as it was |
| TreeRemove.RebalancedShaped | src/index/b_plus_tree.cpp:346-395 | CoalesceOrRedistribute, whichever branch it takes and however far it climbs, keeps the tree shaped and holding exactly the same entries |
| TreeRemove.RedistributedShaped | src/index/b_plus_tree.cpp:466-500 | redistributing between two neighbours of either kind keeps the tree shaped and every entry |
| TreeRemove.LeavesRedistributedShaped | src/index/b_plus_tree.cpp:466-500 | redistributing between two leaves keeps the tree shaped and every entry |
| TreeRemove.InternalsRedistributedShaped | src/index/b_plus_tree.cpp:466-500 | redistributing between two internal pages keeps the tree shaped and every entry |
| TreeRemove.CoalescedShaped | src/index/b_plus_tree.cpp:410-453 | coalescing a page of either kind into its left neighbour keeps the tree shaped and every entry |
| TreeRemove.LeavesCoalescedShaped | src/index/b_plus_tree.cpp:410-453 | coalescing two leaves keeps the tree shaped and every entry |
| TreeRemove.InternalsCoalescedShaped | src/index/b_plus_tree.cpp:410-453 | coalescing two internal pages keeps the tree shaped and every entry |
| TreeRemove.MergedShaped | src/index/b_plus_tree.cpp:410-453 | Coalesce followed by the rebalancing of the parent keeps the tree shaped and every entry |
| TreeRemove.RootAdjustedShaped | src/index/b_plus_tree.cpp:513-542 | AdjustRoot keeps the tree shaped and every entry |
| TreeRemove.RootChildShaped | src/index/b_plus_tree.cpp:513-530 | an internal root with one child hands the root to it; the tree stays shaped with the same leaves |
| TreeRemove.DestroyedShaped | src/index/b_plus_tree.cpp:25-32 | every round of Destroy is a Remove: the tree stays shaped and holds no entry it did not hold before |
| TreeRemove.DestroyedWellFormed | src/index/b_plus_tree.cpp:25-32 | Destroy keeps a well-formed tree well-formed, and whatever the search finds afterwards it found before |
| ColumnCodec.NewColumn | src/record/column.cpp:3-17 | the length-less constructor succeeds exactly for int and float columns, giving them their type's width and keeping name, type and index |
| ColumnCodec.FieldsOneWrite | src/record/column.cpp:36-45 | the five field writes add up to one write of the field bytes |
| ColumnCodec.WritesAddUp | src/record/column.cpp:29-47 | SerializeTo's writes, one by one, add up to the magic number at the start and the body from 8 bytes on |
| ColumnCodec.WrittenFrame | src/record/column.cpp:29-47 | SerializeTo leaves the bytes before the column, the four bytes after the 4-byte magic number and the bytes after the column alone |
| ColumnCodec.WrittenLaidOut | src/record/column.cpp:29-47 | SerializeTo leaves the column laid out where it was written |
| ColumnCodec.SerializedSizeShort | src/record/column.cpp:29-51 | GetSerializedSize is four bytes short of the offset SerializeTo returns |
| ColumnCodec.Decode | src/record/column.cpp:53-76 | DeserializeFrom succeeds only inside the buffer and returns an offset of at least 30 |
| ColumnCodec.Restored | src/record/column.cpp:59-62 | a column reads back with its name cut at the first NUL, unchanged when the name has none |
| ColumnCodec.FieldsLaidOut | src/record/column.cpp:64-73 | the fields after the name read back as written |
| ColumnCodec.DecodeLaidOut | src/record/column.cpp:53-76 | a column laid out at an offset decodes to that column (name cut at a NUL) and its size |
| ColumnCodec.RoundTrip | src/record/column.cpp:29-76 | deserializing what SerializeTo wrote gives the column back (name cut at a NUL) and the same offset |
| ColumnCodec.WriteFields | src/record/column.cpp:36-45 | the field writes leave the buffer as FieldsWritten says |
| ColumnCodec.SerializeTo | src/record/column.cpp:29-47 | the array afterwards is Written of the old contents, and the offset returned is the column's size |
| ColumnCodec.DeserializeFrom | src/record/column.cpp:53-76 | the result is Decode of the buffer |
| SchemaCodec.ColumnsWrittenFrame | src/record/schema.cpp:8-9 | writing the columns leaves every byte before them alone |
| SchemaCodec.WrittenFrame | src/record/schema.cpp:3-11 | SerializeTo leaves every byte before its start alone |
| SchemaCodec.Decode | src/record/schema.cpp:20-34 | a successful DeserializeFrom returns an offset past the 12-byte header |
| SchemaCodec.RestoredColumns | src/record/schema.cpp:27-31 | the columns read back one for one, each with its name cut at a NUL |
| SchemaCodec.WrittenColumnsLaidOut | src/record/schema.cpp:8-9 | writing the columns lays them out one after the other |
| SchemaCodec.LaidOutReadsBack | src/record/schema.cpp:27-31 | columns laid out one after the other read back one after the other with their sizes |
| SchemaCodec.ColumnsRoundTrip | src/record/schema.cpp:8-9 | reading back the columns written gives them back in order, and the bytes they take |
| SchemaCodec.HeaderReads | src/record/schema.cpp:3-11 | the magic number and the count that SerializeTo writes read back |
| SchemaCodec.RoundTrip | src/record/schema.cpp:3-34 | deserializing what SerializeTo wrote gives the schema back (names cut at a NUL) and the same offset |
| SchemaCodec.SizeAsWrittenShort | src/record/schema.cpp:13-18 | GetSerializedSize falls short of what SerializeTo writes by four bytes per column |
| SchemaCodec.GetSerializedSize | src/record/schema.cpp:13-18 | the loop returns the size as written, four bytes per column short of the true size |
| SchemaCodec.SerializeColumn | src/record/schema.cpp:8-9 | one turn of the loop writes the next column and advances the offset by its size |
| SchemaCodec.SerializeTo | src/record/schema.cpp:3-11 | the array afterwards is Written of the old contents, and the offset returned is the schema's size |
| SchemaCodec.DeserializeColumn | src/record/schema.cpp:27-31 | one turn of the loop reads the next column and advances, or reports the abort the whole read ends in |
| SchemaCodec.DeserializeFrom | src/record/schema.cpp:20-34 | the result is Decode of the buffer |
| TableMeta.Create | src/catalog/table.cpp:54-62 | the metadata holds exactly the id, name, root page and schema given |
| TableMeta.PrefixWritesAddUp | src/catalog/table.cpp:3-13 | the five writes before the schema add up to one write of the prefix |
| TableMeta.GetSerializedSize | src/catalog/table.cpp:20-22 | GetSerializedSize falls short of the bytes SerializeTo writes by four bytes per column |
| TableMeta.Decode | src/catalog/table.cpp:27-47 | a successful DeserializeFrom returns an offset of at least 32 |
| TableMeta.Restored | src/catalog/table.cpp:35-45 | the metadata reads back with its ids kept and every name cut at its first NUL |
| TableMeta.RestoredUnchanged | src/catalog/table.cpp:35-45 | names without a NUL read back whole, so the metadata reads back unchanged |
| TableMeta.PrefixKept | src/catalog/table.cpp:3-15 | writing the schema after the prefix leaves the prefix in place |
| TableMeta.SchemaReads | src/catalog/table.cpp:14-15 | the schema written after the prefix reads back |
| TableMeta.RoundTrip | src/catalog/table.cpp:3-47 | deserializing what SerializeTo wrote gives back the table id, root page, name and columns (names cut at a NUL) and the bytes written |
| TableMeta.SerializePrefix | src/catalog/table.cpp:3-13 | the fields before the schema are written and the offset advanced past them |
| TableMeta.SerializeTo | src/catalog/table.cpp:3-18 | the array afterwards is Written of the old contents; the offset returned is GetSerializedSize, four bytes per column short of the bytes written |
| TableMeta.DeserializeFrom | src/catalog/table.cpp:27-47 | the result is Decode of the buffer |
| IndexMeta.Create | src/catalog/indexes.cpp:3-8 | the metadata holds exactly the id, name, table and key columns given |
| IndexMeta.GetSerializedSize | src/catalog/indexes.cpp:32-36 | GetSerializedSize is exactly the number of bytes SerializeTo writes |
| IndexMeta.Decode | src/catalog/indexes.cpp:38-65 | a successful DeserializeFrom stays inside the buffer and returns an offset of at least 28 |
| IndexMeta.Restored | src/catalog/indexes.cpp:46-49 | the metadata reads back with its name cut at its first NUL and everything else kept |
| IndexMeta.KeysRead | src/catalog/indexes.cpp:57-61 | key columns laid out in order read back in order |
| IndexMeta.HeaderWritesAddUp | src/catalog/indexes.cpp:10-23 | the six writes before the key loop add up to one write of the header |
| IndexMeta.RoundTrip | src/catalog/indexes.cpp:10-65 | deserializing what SerializeTo wrote gives back the ids and the key columns in order, the name cut at a NUL, and the same offset |
| IndexMeta.SerializeHeader | src/catalog/indexes.cpp:10-23 | the six fields are written and the offset advanced past them |
| IndexMeta.SerializeTo | src/catalog/indexes.cpp:10-30 | the array afterwards is Written of the old contents, and the offset returned is GetSerializedSize and the size |
| IndexMeta.DeserializeFrom | src/catalog/indexes.cpp:38-65 | the result is Decode of the buffer |
| CatalogMetaCodec.LoadedStored | src/catalog/catalog.cpp:10-24 | loading a stored pair gives back the entry, for the index map too, whose halves are stored swapped |
| CatalogMetaCodec.EntriesAtOrdered | src/catalog/catalog.cpp:39-58 | whatever the bytes, what DeserializeFrom builds by inserting is a map with ordered keys |
| CatalogMetaCodec.EntriesRead | src/catalog/catalog.cpp:39-58 | the stored entries of a map, read back and inserted in order, rebuild it |
| CatalogMetaCodec.GetSerializedSize | src/catalog/catalog.cpp:62-66 | GetSerializedSize is four bytes more than SerializeTo writes |
| CatalogMetaCodec.DecodeValid | src/catalog/catalog.cpp:27-60 | a successful decode gives two maps |
| CatalogMetaCodec.RoundTrip | src/catalog/catalog.cpp:3-60 | deserializing what SerializeTo wrote gives back both maps, the index map with its pairs swapped back |
| CatalogMetaCodec.WritePair | src/catalog/catalog.cpp:11-14 | one pair's two halves are written from the offset |
| CatalogMetaCodec.WriteEntries | src/catalog/catalog.cpp:10-15 | the loop writes each entry in iteration order as an 8-byte pair and advances past them |
| CatalogMetaCodec.WriteCounted | src/catalog/catalog.cpp:8-15 | a count followed by that many pairs |
| CatalogMetaCodec.SerializeTo | src/catalog/catalog.cpp:3-25 | the array afterwards is Written of the old contents |
| CatalogMetaCodec.ReadEntries | src/catalog/catalog.cpp:39-46 | the loop reads, loads and inserts each pair, giving EntriesAt |
| CatalogMetaCodec.DeserializeFrom | src/catalog/catalog.cpp:27-60 | the result is Decode of the buffer |
| SortedMap.Find | src/catalog/catalog.cpp:169-183 | a map lookup finds a value stored under the key, and fails exactly when no entry carries the key |
| SortedMap.InsertOrdered | src/catalog/catalog.cpp:45 | an insert keeps the keys in ascending order |
| SortedMap.FindInsert | src/catalog/catalog.cpp:45 | after an insert the key maps to the value if it was absent, and every other lookup is unchanged |
| SortedMap.FindErase | src/catalog/catalog.cpp:203-235 | after an erase the key is absent and every other lookup is unchanged |
| SortedMap.EraseInsert | src/catalog/catalog.cpp:135-235 | erasing a key just inserted into a map without it gives the map back |
| Catalog.Empty | src/catalog/catalog.cpp:76-77 | a new database's catalog has no table names, no index names and no recorded metadata pages |
| Catalog.EmptyConsistent | src/catalog/catalog.cpp:76-77 | the empty catalog is consistent |
| Catalog.PageOf | src/catalog/catalog.cpp:215 | a page-map lookup gives the recorded page, and 0 for a missing id as `operator[]` does |
| Catalog.TableCreated | src/catalog/catalog.cpp:135-166 | CreateTable fails with DB_TABLE_ALREADY_EXIST exactly when the name is in use, changing nothing, and succeeds otherwise |
| Catalog.GetTable | src/catalog/catalog.cpp:169-183 | GetTable by name fails with DB_TABLE_NOT_EXIST exactly when the name is unknown, and otherwise finds one of the tables |
| Catalog.GetTableById | src/catalog/catalog.cpp:185-191 | GetTable by id fails with DB_TABLE_NOT_EXIST exactly when the id is unknown |
| Catalog.GetTables | src/catalog/catalog.cpp:193-201 | GetTables fails with DB_FAILED exactly when there is no table, and otherwise lists every table |
| Catalog.TableDropped | src/catalog/catalog.cpp:203-235 | DropTable fails with DB_TABLE_NOT_EXIST exactly when the name is unknown, changing nothing; on success the name and its table are gone |
| Catalog.ColumnIndex | src/catalog/catalog.cpp:248-249 | GetColumnIndex gives the first column with the name, and none exactly when no column has it |
| Catalog.KeyMap | src/catalog/catalog.cpp:246-251 | the key map exists exactly when every key names a column, and holds each key's first column position as a uint32_t |
| Catalog.IndexCreated | src/catalog/catalog.cpp:237-290 | CreateIndex fails with DB_TABLE_NOT_EXIST, DB_COLUMN_NAME_NOT_EXIST and DB_INDEX_ALREADY_EXIST each exactly in its case, in that order, changing nothing, and succeeds otherwise |
| Catalog.GetIndex | src/catalog/catalog.cpp:292-305 | GetIndex fails with DB_INDEX_NOT_FOUND exactly when the index name is not filed under the table |
| Catalog.IndexDropped | src/catalog/catalog.cpp:307-341 | DropIndex fails with DB_TABLE_NOT_EXIST when the table has no index and DB_INDEX_NOT_FOUND when the name is not filed under it, changing nothing; on success the index is gone |
| Catalog.GetTableIndexes | src/catalog/catalog.cpp:343-354 | GetTableIndexes fails with DB_INDEX_NOT_FOUND exactly when the table has no index, and otherwise gives what GetIndex finds for each filed name |
| Catalog.ConsistentKnown | src/catalog/catalog.cpp:169-354 | in a consistent catalog every name leads to a table that is there and every filed index is there, so the lookups never dereference a missing entry |
| Catalog.CreateTableKeepsConsistent | src/catalog/catalog.cpp:135-166 | CreateTable under an unused id keeps the catalog consistent |
| Catalog.CreateTableThenGet | src/catalog/catalog.cpp:135-191 | after CreateTable, GetTable by name and by id find the new table, its page is recorded, and every other name finds what it did |
| Catalog.DropTableUndoesCreate | src/catalog/catalog.cpp:135-235 | dropping a table just created restores the catalog and deletes the new table's page |
| Catalog.DropTableKeepsConsistent | src/catalog/catalog.cpp:203-235 | DropTable keeps the catalog consistent |
| Catalog.DropTableThenGet | src/catalog/catalog.cpp:203-235 | after DropTable neither name nor id finds the table, its page entry is gone and the page deleted is the one recorded |
| Catalog.DropTableKeepsOthers | src/catalog/catalog.cpp:203-235 | DropTable leaves what every other name finds as it was |
| Catalog.TablesListed | src/catalog/catalog.cpp:193-201 | GetTables lists exactly the tables GetTable finds by their names |
| Catalog.CreateIndexKeepsConsistent | src/catalog/catalog.cpp:237-290 | CreateIndex under an unused id keeps the catalog consistent |
| Catalog.CreateIndexThenGet | src/catalog/catalog.cpp:237-305 | after CreateIndex, GetIndex finds the new index with the table's id and the key map, and its page is recorded |
| Catalog.CreateIndexKeepsOthers | src/catalog/catalog.cpp:237-305 | CreateIndex leaves what GetIndex finds under every other filing as it was |
| Catalog.DropIndexUndoesCreate | src/catalog/catalog.cpp:237-341 | dropping an index just created restores the catalog and deletes the new index's page |
| Catalog.DropIndexKeepsConsistent | src/catalog/catalog.cpp:307-341 | DropIndex keeps the catalog consistent |
| Catalog.DropIndexThenGet | src/catalog/catalog.cpp:292-341 | after DropIndex GetIndex no longer finds the index, its page entry is gone and the page deleted is the one recorded |
| Catalog.DropIndexKeepsOthers | src/catalog/catalog.cpp:292-341 | DropIndex leaves what GetIndex finds under every other filing as it was |
| Catalog.TableIndexesListed | src/catalog/catalog.cpp:343-354 | GetTableIndexes lists exactly the indexes GetIndex finds under the table's filings |
| Catalog.CatalogManager.constructor | src/catalog/catalog.cpp:70-77 | a new database's manager starts from the empty catalog |
| Catalog.CatalogManager.Persist | src/catalog/catalog.cpp:161-162 | the catalog metadata is written to its page, where it reads back |
| Catalog.CatalogManager.CreateTable | src/catalog/catalog.cpp:135-166 | the new state and status are TableCreated's; on success the table's metadata is written to the new page and the catalog metadata to its page, where it reads back; on failure no page is touched |
| Catalog.CatalogManager.DropTable | src/catalog/catalog.cpp:203-235 | the new state, status and deleted page are TableDropped's, and the catalog metadata page is rewritten on success |
| Catalog.CatalogManager.CreateIndex | src/catalog/catalog.cpp:237-290 | the new state and status are IndexCreated's; on success the index's metadata is written to the new page and the catalog metadata to its page; on failure no page is touched |
| Catalog.CatalogManager.KeyColumns | src/catalog/catalog.cpp:246-251 | the loop over the keys returns KeyMap |
| Catalog.CatalogManager.DropIndex | src/catalog/catalog.cpp:307-341 | the new state, status and deleted page are IndexDropped's, and the catalog metadata page is rewritten on success |
| RowBits.WithBitReads | src/record/row.cpp:11 | `b \| 1u << k` sets bit `k` and leaves the other seven bits as they were |
| RowCodec.BitmapLength | src/record/row.cpp:9 | `(n + 7) / 8` is the fewest bytes holding `n` bits |
| RowCodec.MarkedReads | src/record/row.cpp:10-11 | after the marking loop has seen the first `n` fields, field `i`'s bit is set exactly when it is among them and null, or was set before |
| RowCodec.NullBitmapExact | src/record/row.cpp:9-11 | on a zeroed bitmap, bit i%8 of byte i/8 is set exactly when field `i` is null |
| RowCodec.NullBitmapAsWrittenReads | src/record/row.cpp:9-11 | on the unzeroed array `new[]` returns, a field's bit is set when it is null or when the byte already held it |
| RowCodec.NullBitmap | src/record/row.cpp:9-11 | the bitmap has one byte per eight fields, rounded up; NullBitmapExact states which bits are set |
| RowCodec.NullBitmapAsWritten | src/record/row.cpp:9-11 | the bitmap keeps the length of the array it starts from; NullBitmapAsWrittenReads and UnzeroedBitmapMarksNonNull state what it sets |
| RowCodec.UnzeroedBitmapMarksNonNull | src/record/row.cpp:9 | a single non-null field over a bitmap byte holding 1 is written as null |
| RowCodec.ShiftedFlagMissesNull | src/record/row.cpp:39 | the flag as read at line 39 is never set for field 8 or later, so a null ninth field is marked in the bitmap but read as not null |
| RowCodec.NullFlag | src/record/row.cpp:39 | no contract of its own; NullBitmapExact and RoundTrip state that it reads back the flag the corrected bitmap writes |
| RowCodec.NullFlagAsWritten | src/record/row.cpp:39 | no contract of its own; ShiftedFlagMissesNull states that it misses every field from the ninth on |
| RowCodec.PayloadSizeIsLength | src/record/row.cpp:49-50 | the fields' sizes add up to the length of the bytes they write |
| RowCodec.SizeIsEncodingLength | src/record/row.cpp:46-52 | GetSerializedSize is the number of bytes SerializeTo writes |
| RowCodec.Decode | src/record/row.cpp:23-44 | what DeserializeFrom reads gives the stored row id and a field count equal to the stored count and within the schema's columns; a short buffer gives nothing |
| RowCodec.RoundTrip | src/record/row.cpp:3-44 | DeserializeFrom reads back the row id and fields SerializeTo wrote, and the offset just past them, when the schema types the fields and each field reads back its own bytes |
| RowCodec.Row.constructor | src/record/row.cpp:3 | a row holds the given row id and fields |
| RowCodec.Row.SerializeTo | src/record/row.cpp:3-21 | the buffer holds the row's encoding at the offset and nothing else changes; the offset returned is the encoding's length and GetSerializedSize |
| RowCodec.Row.NullBits | src/record/row.cpp:9-11 | the marking loop over a zeroed array builds the null bitmap |
| RowCodec.Row.WritePayload | src/record/row.cpp:14-18 | the fields' bytes are written one after another from the offset, and their total is returned |
| RowCodec.Row.GetSerializedSize | src/record/row.cpp:46-52 | the size is the encoding's length taken modulo 2^32 |
| RowCodec.Row.DeserializeFrom | src/record/row.cpp:23-44 | a non-empty row fails the assertion and is left as it was; otherwise the row becomes what Decode reads, or stays as it was when the buffer is too short |
| RowCodec.Row.ReadFields | src/record/row.cpp:34-41 | the loop reads the fields that FieldsAt describes, in order |
| Executor.DigitsConvert | src/executor/execute_engine.cpp:55-61 | on decimal digits StringToInt gives the number they spell, reduced modulo 2^32 |
| Executor.SmallNumbersConvert | src/executor/execute_engine.cpp:55-61 | a decimal number below 2^32 converts to itself |
| Executor.NonDigitsAccepted | src/executor/execute_engine.cpp:57-58 | no character is checked: "1a" converts to 59 |
| Executor.StringToInt | src/executor/execute_engine.cpp:55-61 | the loop folds the characters before the terminating NUL into `len * 10 + c - '0'` in uint32_t arithmetic |
| Executor.DatabaseCreated | src/executor/execute_engine.cpp:76-90 | creating fails exactly when the name is registered, changing nothing; otherwise the name is added and the database in use stays |
| Executor.DatabaseDropped | src/executor/execute_engine.cpp:92-108 | dropping fails exactly when the name is unknown, changing nothing; otherwise the name is removed and, if it was in use, none is in use |
| Executor.DatabaseUsed | src/executor/execute_engine.cpp:125-140 | using fails exactly when the name is unknown, changing nothing; otherwise the name is put in use |
| Executor.DatabasesShown | src/executor/execute_engine.cpp:110-123 | showing fails exactly when no database is registered |
| Executor.OperationsKeepCurrentKnown | src/executor/execute_engine.cpp:76-140 | create, drop and use keep the database in use registered |
| Executor.DropUndoesCreate | src/executor/execute_engine.cpp:76-108 | dropping a database just created restores the registry, the database in use included |
| Executor.DropThenUseFails | src/executor/execute_engine.cpp:92-140 | after a drop the name cannot be used, and it can be created again |
| Executor.CreateThenShow | src/executor/execute_engine.cpp:76-123 | once a database is created, showing the databases succeeds |
| Executor.ExecuteEngine.constructor | src/executor/execute_engine.cpp:4 | the engine starts with no database and none in use |
| Executor.ExecuteEngine.ExecuteCreateDatabase | src/executor/execute_engine.cpp:76-90 | the new registry and status are DatabaseCreated's |
| Executor.ExecuteEngine.ExecuteDropDatabase | src/executor/execute_engine.cpp:92-108 | the new registry and status are DatabaseDropped's |
| Executor.ExecuteEngine.ExecuteShowDatabases | src/executor/execute_engine.cpp:110-123 | the status is DatabasesShown's |
| Executor.ExecuteEngine.ExecuteUseDatabase | src/executor/execute_engine.cpp:125-140 | the new registry and status are DatabaseUsed's |
| Executor.ExecuteEngine.ExecuteQuit | src/executor/execute_engine.cpp:427-434 | the context's quit flag is raised and the status is DB_SUCCESS |
| Executor.ExecuteEngine.Execute | src/executor/execute_engine.cpp:6-53 | no tree or an unknown node type fails; each database statement and quit has its executor's effect and status; select, execfile and the transaction statements fail without effect; every other statement returns its executor's result; only quit raises the quit flag |

## Left out

- Concurrency: the disk manager's mutex, page latches and the catalog's latches. The model is single-threaded.
- The database file's I/O (open, seek, read, write, flush, stat, close) is a map from physical page number to the bytes last written there. A missing or short page reads zero-filled. File sizes and I/O errors are not modelled.
- Constants defined in headers that are not part of this model are fixed here: PAGE_SIZE 4096, the bitmap page's two 4-byte counters ahead of 4088 bitmap bytes (so BITMAP_SIZE = 8 * 4088), the number of extent slots on the meta page, and the magic numbers of the column, schema, table, index and catalog layouts.
- An `ASSERT` becomes an aborted result (`None`, `Aborted`) where the caller can reach it with ordinary data, for example a magic number that does not match or `KeyAt` past the size. It becomes a `requires` where it guards the method's own arguments, for example the disk manager's page-count limit.
- B+ tree keys and values are `int`, compared with `<`. The `GenericKey` and comparator templates are not part of this model.
- B+ tree pages live in a page store, a map from page id to node. The tree does not go through the buffer pool, so its pin and unpin calls, including the extra unpins in FindLeafPage and Split, are not modelled. A fresh page id comes from a counter standing for NewPage. UpdateRootPageId is the update of the header map inside each operation.
- BPlusTree.Merged: the source's Coalesce calls DeletePage on the removed node twice (src/index/b_plus_tree.cpp:423 or 439, then 444); the store removes the page once. The second call's effect on the buffer pool is not modelled.
- BPlusTree.Descend, BPlusTree.ParentInserted, BPlusTree.Rebalanced, BPlusTree.Rightmost: recursion over the tree's height is bounded by a `fuel` argument (the number of pages at the call sites), so a malformed store whose parent links form a cycle ends the operation early instead of looping.
- BPlusTree.BPlusTree.Destroy: runs at most `fuel` rounds of "remove the leftmost leaf's first key"; DestroyRootLeaf proves that enough rounds empty a tree that is one leaf.
- BPlusTree.Destroyed: the model does not prove that enough rounds empty every well-formed tree. The shape it proves keeps no lower bound on a page's size, so it cannot rule out an empty leftmost leaf under a non-empty tree, where the loop would stop. DestroyRootLeaf covers a tree that is one leaf, and DestroyedWellFormed shows that every round keeps the tree well-formed and adds nothing.
- TreeRemove.DeletedWellFormed, TreeRemove.DeletedShaped, TreeRemove.RebalancedShaped: require `MinSizesFit`, that the minimum sizes are at most the maximum (strictly below it for internal pages). GetMinSize, half the maximum, is defined in a page source that is not part of this model, so the model takes the minimum sizes as configuration.
- TreeShape.Shaped: the leaf chain is outside the proved invariant. No condition says that a leaf's next link leads to the leaf holding the next larger keys, or that the rightmost leaf's link is INVALID. So InsertedWellFormed and DeletedWellFormed say nothing about the links after a split, a coalesce or a redistribution, and iterating from Begin() to End() is not proved to list every held entry once, in increasing key order. The reason is that spans bound a page's keys from outside rather than tiling the key space, so a chain condition would need exact spans carried through every insert and remove proof. Single steps are covered: LeafSplitKeepsEntries links the new leaf between the old one and its successor, MergeLeavesKeepsEntries passes the removed leaf's link to its neighbour, and AdvanceAcrossLeaves and AdvanceToEnd follow one link.
- TreeShape.Shaped: the invariant has no lower bound on page sizes. Remove's rebalancing is proved to keep the tree shaped and its entries, not to keep every page at least half full.
- ToGraph, ToString and Check in src/index/b_plus_tree.cpp are debug output and not modelled.
- The internal page source does not compile as written (`array` and `array_` mixed, `Key` for `key`, an undeclared `i` and `first`, `KeyComparator` called as a function). The model follows the behaviour the doc comments state and the B+ tree relies on. Two routines that compile apart from these slips, Lookup and InsertNodeAfter, are also modelled as written (see Findings).
- Moving a child between internal pages also rewrites the child's parent id through the buffer pool. The model does that on the page store (`TreeNode.Adopt`), not inside `Internal.InternalPage`.
- The table heap and the table iterator are not part of this model.
- Catalog: the constructor's reload branch (init == false), which rebuilds the maps from the stored pages, and the destructor are not modelled. Only a new database's empty catalog is.
- Catalog: table heaps, B+ tree indexes, the MemHeap and the TableInfo and IndexInfo handles are not kept. Each table and index is its metadata record, and DeletePage is reported as the freed page id instead of being called.
- Catalog.CatalogManager.CreateTable, Catalog.CatalogManager.CreateIndex: the next table or index id and the page NewPage allocates are parameters, because the id counters live in a header that is not part of this model. Consistency is proved for any unused id.
- Catalog.CatalogManager.CreateTable, Catalog.CatalogManager.CreateIndex: require the catalog metadata with one more entry (`CatalogMetaCodec.Size(meta) + 8`) to fit the meta page, and the new record to fit its own page. The source writes both pages without checking, so an overflowing write is not modelled.
- Catalog.ColumnIndex: `Schema::GetColumnIndex` is declared in a header that is not part of this model. It is taken to give the first column with the name.
- Catalog.TableDropped: like the source, dropping a table leaves that table's indexes filed. The model does not claim they go.
- CatalogMetaCodec.GetSerializedSize, ColumnCodec.GetSerializedSize, TableMeta.GetSerializedSize: modelled as written, with lemmas stating by how much each differs from the bytes SerializeTo writes. They are not proved equal.
- IndexMeta.Decode: DeserializeFrom reads the stored size_t key count into a `uint32_t` (src/catalog/indexes.cpp:53), and the model truncates it the same way. IndexMeta.RoundTrip therefore covers key maps of fewer than 2^32 entries, the bound `Encodable` states.
- std::map<uint32_t, int32_t> in the catalog metadata is an ascending sequence of pairs (`SortedMap`). Its balanced-tree implementation is not modelled.
- RowCodec: a field is abstract. It is a type id, a null flag and the bytes it writes, and reading one back is a `FieldReader` parameter that must invert the field's own layout. The Field classes are not part of this model.
- RowCodec.Row.SerializeTo: requires the encoding to stay below 2^32 bytes, so the `uint32_t` offset does not wrap. RowCodec.Row.GetSerializedSize does model the wrap.
- RowCodec.Row.DeserializeFrom: collects the fields in a local sequence and assigns them at the end, where the source appends to `fields_` as it goes. A buffer too short for the header or the bitmap is an aborted read; the source would read past it. The Schema argument of SerializeTo and GetSerializedSize is unused by the source and left out.
- RowCodec.Decode: a stored field count above the schema's column count is an aborted read. The source reads the type of each field from the schema by index, so it would index past the schema's columns there.
- Executor: StringToFloat (floating point) is not modelled. Its source at line 69 does not compile.
- Executor: the table, index, insert, delete and update executors (src/executor/execute_engine.cpp:142-322, 332-417) are AST and catalog glue. Execute passes their result through as the `delegated` argument.
- Executor: the DBStorageEngine each database owns is not modelled; the registry keeps names. The source keeps the address of an engine local to CreateDatabase (lines 86-87), which dangles once it returns.
- Executor: printf and cout output, and the debug LOG lines, are left out. The "Unexpected node type" ASSERT in ExecuteQuit cannot fail when Execute dispatches, so ExecuteQuit has no requires.
- Executor.StringToInt: `char` is signed, so a byte of 128 or more counts as negative (`CharValue`); the scan stops at the first NUL or at the end of the given buffer.

## Findings

| source | as written | input that shows it | evidently intended | confidence | as-written member | corrected member |
|---|---|---|---|---|---|---|
| src/page/bitmap_page.cpp:9 | the `next_free_page_` hint only grows by one, whether or not the next offset is free; the scan meant to move it advances `page_allocated_`, the count of set bits, instead | from an empty page allocate 0, 1 and 2, free 0, allocate (gets 0): the hint is 1, and the next allocation hands out offset 1 again | move the hint forward to the next free offset and count the set bit | not executed | Bitmap.AllocateAsWritten, Bitmap.AllocateAsWrittenReusesAllocatedOffset | Bitmap.Allocate, Bitmap.AllocateCorrect |
| src/storage/disk_manager.cpp:56 | extent `e`'s bitmap is read and written at physical page `e * BITMAP_SIZE + 1` (also lines 60, 74, 77 and 83) | extent 1's bitmap lands on physical page BITMAP_SIZE + 1, which MapPageId gives logical page BITMAP_SIZE - 1, so writing that page overwrites the bitmap | put each extent's bitmap on the physical page just before its first data page, `e * (BITMAP_SIZE + 1) + 1` | not executed | Disk.BitmapPageIdAsWritten, Disk.WritePageClobbersBitmapAsWritten | Disk.BitmapPageId, Disk.BitmapPageIdDisjoint |
| src/buffer/buffer_pool_manager.cpp:106-109 | UnpinPage offers the frame to the replacer on every decrement of the pin count | a page fetched twice and unpinned once stays pinned, yet becomes a victim: fetching another page evicts it | offer the frame to the replacer only when its pin count reaches 0 | not executed | BufferPool.UnpinnedAsWritten, BufferPool.UnpinPageAsWrittenEvictsPinnedPage | BufferPool.Unpinned, BufferPool.UnpinPageKeepsInv |
| src/buffer/buffer_pool_manager.cpp:83-90 | DeletePage deallocates the page on disk before checking its pin count | deleting a pinned cached page returns false, yet the page is now free on disk while still cached, so NewPage can hand its id out again | check the pin count first, and deallocate only a page that can be deleted | not executed | BufferPool.DeletedAsWritten, BufferPool.DeletePageAsWrittenFreesPinnedPage | BufferPool.Deleted, BufferPool.DeletePageKeepsInv |
| src/page/b_plus_tree_internal_page.cpp:77-88 | Lookup returns a child only for a key below the first routing key, above the last one, or equal to one of them; other keys reach the end of the function without a return | slots (_, 10), (5, 11), (9, 12) and key 7 | route to the last child whose routing key is at most the key | not executed | Internal.LookupAsWritten, Internal.LookupAsWrittenMissesGap | Internal.RouteIndex, Internal.InternalPage.Lookup |
| src/page/b_plus_tree_internal_page.cpp:115-129 | InsertNodeAfter shifts and writes inside the old size and never grows it | slots (_, 10), (5, 11): inserting (7, 12) after child 11 loses the new child, and inserting (3, 12) after child 10 loses child 11 | grow the size by one and shift every later slot right | not executed | Internal.InsertedAfterAsWritten, Internal.InsertedAfterAsWrittenLosesChild | Internal.InsertedAfter, Internal.InsertedAfterShape |
| src/index/b_plus_tree.cpp:272-276 | when a full parent splits, the new page's slot 0 is shifted out and its child dropped | a parent with children 10, 20, 25, 30, 40 splits into 10, 20, 25 and 40, and child 30 is in neither page | keep the new page's slot 0 child and only push its key up | not executed | BPlusTree.SplitSlotsAsWritten, BPlusTree.SplitSlotsAsWrittenExample | BPlusTree.SplitSlots, BPlusTree.SplitSlotsKeepsChildren |
| src/index/b_plus_tree.cpp:566-578 | Begin(key) reads `KeyAt(index)` before comparing the index with the leaf's size; when the index equals the size it then applies ++ from slot `size`, and operator++ (src/index/index_iterator.cpp:28-40) leaves a leaf only from slot `size - 1`, so that ++ would give slot `size + 1` of the same leaf | a one-leaf tree holding key 1 and Begin(2): index 1 equals the size, and KeyAt's bounds assertion fails | compare the index with the size first, and when every key of the leaf is below `key` step past the leaf's last entry: to slot 0 of the next leaf, or to the end position on the rightmost leaf. The corrected member makes two changes: the size check comes first, and ++ starts from slot `size - 1` | not executed | BPlusTree.BeginAtAsWritten, BPlusTree.BeginAtAsWrittenAborts | BPlusTree.BeginAtPos, BPlusTree.BeginAtLands |
| src/record/row.cpp:9 | the null bitmap comes from `new unsigned char[...]`, which is not zeroed, and the loop only sets bits | one non-null field over a bitmap byte that happens to hold 1 is written as null | a zeroed bitmap, as the `= {}` of the commented-out line 8 gives | not executed | RowCodec.NullBitmapAsWritten, RowCodec.UnzeroedBitmapMarksNonNull | RowCodec.NullBitmap, RowCodec.NullBitmapExact |
| src/record/row.cpp:39 | the null flag is read as `(bitmap[i / 8] >> i) & 1` | nine fields whose ninth is null: byte 1 holds bit 0, but `>> 8` reads 0 and the field comes back not null | `(bitmap[i / 8] >> (i % 8)) & 1`, as SerializeTo writes it | not executed | RowCodec.NullFlagAsWritten, RowCodec.ShiftedFlagMissesNull | RowCodec.NullFlag, RowCodec.RoundTrip |
