# EDB, modelled and proved in Dafny

EDB is a single-node database kernel. This project models its layers and proves that they
stack up to what the kernel is for. Check it with `dafny verify dfyconfig.toml`.

* **Storage.** Slotted pages on real bytes (`SlottedPage`, `HeapPage`), the page store over a
  backend that may fail or tear at any call (`PageFile`, `PageStore`), the three eviction
  policies behind one contract (`ClockSweep`, `LruK`, `Arc`, `ArcRecency`, `ArcPolicy`, `Policy`), what
  they know after a run and which victims it determines (`Eviction`, `Replacement`, `PolicyRuns`), the buffer
  pool as a transparent cache (`PoolModel`, `BufferPool`, `PoolRuns`), and the heap engine (`HeapModel`,
  `HeapEngine`). `EngineRuns.Run` puts them together: every run of inserts, deletes, steps of any
  number of scans and reopens over the page bytes, for any policy and capacity and any fault schedule whose failing
  reads move no bytes, is a trace of an abstract database that refuses only what it must, and
  `Runs` proves what every such trace keeps.
* **Rows.** The row codec and its round trip (`RowCodec`), and typed tables over the engine (`Table`).
* **Queries.** Lexer and parser with an exact grammar and text round trips (`Lexer`, `Grammar`,
  `SourceText`, `Parser`, `Numerals`), binder and evaluator with type soundness (`Query`, `Eval`), agreement
  with SQL's three-valued logic (`ThreeValued`; ISO/IEC 9075:1992, sections 7.6, 8.2 and 8.12),
  planning and the row-at-a-time executor (`Plans`, `Executor`), SELECT and INSERT over a
  stored table (`Statements`, `Inserting`), and SELECT from text to rows (`QueryEngine`).
* **Catalog.** System tables and their caches (`Catalog`).

Objects that the source updates in place are classes whose methods are proved against pure
functions; theorems are about those functions. The three policies are classes behind one tagged
dispatcher, and the executor's scan, filter and projection nodes are one class with an operator
tag, because both are closed sets in the source. Every engine operation holds the
latch for its whole body, so interleavings of whole operations are the concurrent behaviour;
`update_tuple` is two such steps.

Where the obvious property is false, the project has the exact condition instead:

* a page whose header lies leads reads and inserts out of the page
  (`SlottedPage.CorruptOutOfReach`); no operation on a well-formed page leaves it
  (`SlottedPage.WellFormedInReach`), and the page operations are specified for every page on which
  they stay inside;
* a failed read can leave bytes of the wrong page in a frame that still claims its old one
  (`PoolModel.FailedRead`, with `PoolModel.FailedReadShows`; `Buffering.BufferPool.Fetch` says when);
* ARC as written keeps |B1| + |B2| <= c, but the published |T1| + |B1| <= c exactly as long as no
  unremembered page is loaded at that limit (`ArcRecency.PublishedBound`,
  `ArcRecency.ReplacementOverflows`), and a ghost that is hit can be pruned by the eviction it
  causes (`Arc.GhostHit`, `ArcRecency.GhostLost`);
* a failed insert inside an update loses the old tuple (`Engine.HeapEngine.Update`);
* scan cursors wrap at 2^32 pages (`HeapModel.CursorRoundTrip`, `HeapModel.CursorWraps`), and page
  counts at 2^64 (`Storage.PageStore.AllocatePage`);
* decode does not look at `nullable` (`RowFormat.NullableNotChecked`, `RowFormat.Reencodes`);
* a comparison over an unknown truth value is taken for false (`ThreeValued.KeepsExactly`), which
  shows only where it reads a NULL (`ThreeValued.SafeNeverLeaks`);
* INSERT ignores its column list and stores by position (`Inserting.PositionIsName`,
  `Inserting.BoundRowEncodes`, `Inserting.SwappedList`), and a multi-row INSERT that fails keeps its
  earlier rows (`Inserting.InsertRows`);
* a string that is never closed loses its last character (`SourceText.UnclosedString`);
* a drop that fails half way can leave stale caches of that table, until it is dropped
  for good (`CatalogObject.Catalog.DropTable`, `CatalogObject.RunCatalog`, `CatalogObject.StaleCache`);
  a create that fails half way keeps its name taken (`CatalogModel.NameStaysTaken`); and
  dropping a table whose oid stands just above all others hands that oid, and the rows in its
  backend, to the next table created (`CatalogObject.DropThenCreate`, `CatalogObject.RowsComeBack`);
* exchanging the sides of a comparison can make it fail to bind (`Evaluation.ComparesBothWays`,
  `Evaluation.OneWay`).

## Model

| member | source | states |
|---|---|---|
| SlottedPage.WriteU16ReadBack | src/storage/engine/heap/page.cpp:26-35 | a little-endian u16 written at an offset is read back from there |
| SlottedPage.U16IsLe | src/storage/engine/heap/page.cpp:26-35 | a u16 is stored least significant byte first |
| SlottedPage.PageExample | src/storage/engine/heap/page.cpp:82-152 | page 5 of 36 bytes, fresh and with the one-byte tuple [9] inserted, byte for byte |
| Common.LeDigit | src/storage/engine/heap/page.cpp:43-48 | byte k of a little-endian number counts 256^k |
| SlottedPage.InitializedRefines | src/storage/engine/heap/page.cpp:82-94 | an initialised page satisfies the slotted-page invariant and is the empty abstract page with all bytes after the header free |
| SlottedPage.InsertRefines | src/storage/engine/heap/page.cpp:126-152 | insert keeps the invariant (directory below free space below pairwise disjoint live tuples), appends exactly one slot holding the tuple and pays tuple plus slot from the free space; no other slot changes |
| SlottedPage.DeleteRefines | src/storage/engine/heap/page.cpp:154-164 | delete keeps the invariant, empties exactly its own slot and frees nothing |
| SlottedPage.OverwriteRefines | src/storage/engine/heap/page.cpp:166-186 | an equal-length overwrite keeps the invariant and replaces exactly its own slot |
| SlottedPage.BlankIsFull | src/storage/engine/heap/page.cpp:103-124 | a page that accepts any insert is slotted: an all-zero page refuses them all |
| SlottedPage.StepRefines | src/storage/engine/heap/page.cpp:82-210 | every page operation, failing ones included, answers and acts as on the abstract page |
| SlottedPage.WellFormedInReach | src/storage/engine/heap/page.cpp:55-210 | every operation on a well-formed page reads and writes inside the page |
| SlottedPage.CorruptOutOfReach | src/storage/engine/heap/page.cpp:55-152 | a page whose stored count, or whose stored end of free space, lies leads reads and inserts out of the page |
| SlottedPage.RunRefines | src/storage/engine/heap/page.cpp:82-210 | every run of page operations keeps the invariant and gives the replies of the abstract page |
| SlottedPage.RunKeepsSlotted | src/storage/engine/heap/page.cpp:82-186 | no run of operations takes a slotted page out of the slotted-page invariant |
| SlottedPage.RunFromInitialized | src/storage/engine/heap/page.cpp:82-210 | the same from initialize_page, for every page size from 28 to 65535 |
| HeapPage.WriteU16At | src/storage/engine/heap/page.cpp:32-35 | the in-place write equals the sequence-level write |
| HeapPage.WriteU64At | src/storage/engine/heap/page.cpp:43-48 | the byte loop writes the little-endian u64 and nothing else |
| HeapPage.WriteSlotAt | src/storage/engine/heap/page.cpp:60-71 | writes offset and length of one slot in place |
| HeapPage.InitializePage | src/storage/engine/heap/page.cpp:82-94 | refuses sizes outside 28..65535 unchanged; otherwise the buffer becomes the empty slotted page |
| HeapPage.CanInsertTuple | src/storage/engine/heap/page.cpp:115-124 | says yes exactly when tuple and slot fit the free space |
| HeapPage.InsertTuple | src/storage/engine/heap/page.cpp:126-152 | on every page whose slots and free space the insert reaches inside the page: the buffer and the reply are those of the specified step, Corruption included; on error the buffer is untouched |
| HeapPage.DeleteTuple | src/storage/engine/heap/page.cpp:154-164 | as InsertTuple, for delete |
| HeapPage.OverwriteTuple | src/storage/engine/heap/page.cpp:166-186 | as InsertTuple, for overwrite |
| HeapPage.ReadTuple | src/storage/engine/heap/page.cpp:188-202 | returns the slot's tuple or the specified error |
| HeapPage.IsLiveSlot | src/storage/engine/heap/page.cpp:204-210 | true exactly for a slot that holds a tuple |
| PageFile.PatchPage | src/storage/page/page_store.cpp:47-67 | overwriting the first bytes of one page leaves every other page of the file alone |
| PageFile.AppendPage | src/storage/page/page_store.cpp:69-90 | extending an aligned file by zeros appends exactly one zero page |
| Storage.StorageIO.Read | src/storage/io/io_ops.hpp:78-81 | backend read with a schedule of failures: what was moved before a failure stays moved |
| Storage.StorageIO.Write | src/storage/io/io_ops.hpp:83-86 | backend write that may tear: a prefix of the bytes reaches the file, which grows when the write goes past its end, a hole filled with zeros |
| Storage.StorageIO.Sync | src/storage/io/io_ops.hpp:147 | a successful sync makes what the file holds durable; a failed one changes nothing |
| Storage.PageStore.Sync | src/storage/page/page_store.cpp:113-118 | likewise through the page store; a closed store gives an error |
| Storage.PageStore.PageCount | src/storage/page/page_store.cpp:92-107 | the number of whole pages; Corruption for a file that is not a whole number of pages |
| Storage.PageStore.ByteSize | src/storage/page/page_store.cpp:127-137 | page count times page size, refused exactly when it leaves 64 bits |
| Storage.PageStore.ValidateExisting | src/storage/page/page_store.cpp:139-152 | accepts only pages of an open, aligned file |
| Storage.PageStore.ReadPage | src/storage/page/page_store.cpp:25-45 | on success the whole page; on failure exactly a prefix of it is already in the buffer |
| Storage.PageStore.WritePage | src/storage/page/page_store.cpp:47-67 | on success the page is the buffer; on failure only that page can be torn |
| Storage.PageStore.AllocatePage | src/storage/page/page_store.cpp:69-90 | appends one zero page or changes nothing, except that a file of 2^64 - 1 one-byte pages is emptied with success reported, the new count having wrapped to 0; a file that is not a whole number of pages is Corruption; on a healthy backend it succeeds exactly while sizes stay representable or the count wraps |
| ClockSweep.ClockSweepPolicy.RecordAccess | src/storage/buffer/clock_sweep_policy.cpp:18-24 | sets exactly the frame's bit |
| ClockSweep.ClockSweepPolicy.RecordEvict | src/storage/buffer/clock_sweep_policy.cpp:34-40 | clears exactly the frame's bit |
| ClockSweep.ClockSweepPolicy.ChooseVictim | src/storage/buffer/clock_sweep_policy.cpp:42-61 | succeeds exactly when some frame is evictable; the victim is the first evictable frame in clock order with a clear bit, or the first evictable one if none is clear; exactly the evictable frames passed over lose their bit; a failed sweep changes nothing |
| ClockSweep.VictimUnique | src/storage/buffer/clock_sweep_policy.cpp:42-61 | that rule determines one frame |
| ClockSweep.SweptIs | src/storage/buffer/clock_sweep_policy.cpp:42-61 | so does the rule for the bits after the sweep |
| PolicyRuns.ClockKnows | src/storage/buffer/clock_sweep_policy.cpp:18-61 | after every run a frame's bit is set if and only if its page was loaded or hit and the frame has since been neither emptied nor passed over by the hand |
| PolicyRuns.HandKnown | src/storage/buffer/clock_sweep_policy.cpp:42-61 | after every run the hand stands just past the last victim |
| PolicyRuns.ClockVictim | src/storage/buffer/clock_sweep_policy.cpp:42-61 | so every victim of a run is the first evictable frame from there on not used since the hand last passed it, or the first evictable one if all were used |
| LruK.AccessRetains | src/storage/buffer/lru_k_policy.cpp:21-29 | truncating after each access keeps, for every page, exactly its last k access times over the whole log |
| LruK.ScoreMeans | src/storage/buffer/lru_k_policy.cpp:43-86 | comparing retained scores is comparing backward k-distances over the whole access log |
| LruK.ScoresGiveBest | src/storage/buffer/lru_k_policy.cpp:43-86 | the least score found by the loop belongs to the best victim |
| LruK.PreferredTotal | src/storage/buffer/lru_k_policy.cpp:43-86 | preference is total and strict, so the best victim is unique |
| LruK.BestVictimPages | src/storage/buffer/lru_k_policy.cpp:43-86 | two frames that both beat all others hold the same page |
| PolicyRuns.LruKnows | src/storage/buffer/lru_k_policy.cpp:15-37 | after every run the log is exactly the pages hit or loaded, in order |
| LruK.LruKPolicy.RecordAccess | src/storage/buffer/lru_k_policy.cpp:21-29 | the retained histories stay those of the log extended by this access |
| LruK.LruKPolicy.Rank | src/storage/buffer/lru_k_policy.cpp:43-86 | the running-minimum loop finds the lowest frame without history, else the least score |
| LruK.LruKPolicy.ChooseVictim | src/storage/buffer/lru_k_policy.cpp:43-86 | succeeds exactly when some frame is evictable; with k = 0 the victim is the lowest evictable frame; otherwise a page without history goes first, and once every evictable page was accessed the victim has maximal backward k-distance over the whole log |
| Arc.ResetInv | src/storage/buffer/arc_policy.cpp:41-53 | reset establishes the invariant: four duplicate-free, disjoint lists, exact index, resident frames injective and equal to T1 and T2, ghosts and target within capacity |
| Arc.AccessKeeps | src/storage/buffer/arc_policy.cpp:55-75 | a hit keeps the invariant |
| Arc.MissKeeps | src/storage/buffer/arc_policy.cpp:77-97 | adaptation on a miss keeps the invariant, the target bounds included |
| Arc.LoadKeeps | src/storage/buffer/arc_policy.cpp:99-121 | a load keeps the invariant for the enlarged resident map |
| Arc.EvictKeeps | src/storage/buffer/arc_policy.cpp:123-141 | an eviction keeps the invariant for the reduced resident map, ghosts pruned to capacity |
| Arc.PruneKeeps | src/storage/buffer/arc_policy.cpp:174-188 | pruning terminates, touches no resident page and leaves at most capacity ghosts |
| Arc.ListsDisjoint | src/storage/buffer/arc_policy.cpp:41-188 | no page is on two of the four lists |
| Arc.ResidentBound | src/storage/buffer/arc_policy.cpp:41-188 | size(T1) + size(T2) is the number of resident pages, at most the capacity |
| Arc.ChooseFromIs | src/storage/buffer/arc_policy.cpp:163-172 | the choice is the least recently used evictable page of the list |
| Arc.VictimExact | src/storage/buffer/arc_policy.cpp:143-161 | a victim is found exactly when some frame is valid and unpinned, and it is such a frame |
| Arc.LoadPlaces | src/storage/buffer/arc_policy.cpp:99-121 | a loaded page lands in T2 exactly when it was remembered, else in T1 |
| Arc.GhostHit | src/storage/buffer/buffer_pool.cpp:263-273 | a ghost hit that evicts first lands in T2, except exactly when the ghosts are full and the eviction prunes that very ghost; then T1 |
| ArcRecency.HistoryOrdered | src/storage/buffer/arc_policy.cpp:55-188 | after every legal history of calls the invariant holds and each of the four lists runs from the most to the least recently hit, loaded or evicted page |
| ArcRecency.HistoryExplains | src/storage/buffer/arc_policy.cpp:55-188 | after every legal history T1 holds pages last loaded while unremembered, T2 pages last hit or loaded while remembered as ghosts, B1 pages evicted from T1 and B2 pages evicted from T2 |
| ArcRecency.BoundStep | src/storage/buffer/arc_policy.cpp:99-141 | from a reachable state within the published bound size(T1) + size(B1) <= c, a legal call leaves it if and only if it loads a page on no list while the sum is exactly c |
| ArcRecency.PublishedBound | src/storage/buffer/arc_policy.cpp:55-188 | a legal history stays within the published bound at every step if and only if no call of it is such a load |
| ArcRecency.ReplacementOverflows | src/storage/buffer/arc_policy.cpp:99-141 | with one frame, one replacement is a legal history that leaves the bound |
| ArcRecency.GhostLost | src/storage/buffer/buffer_pool.cpp:263-273 | a legal history in which a page brought back from the ghosts lands in T1, its ghost pruned by the eviction it caused |
| ArcRecency.VictimOldest | src/storage/buffer/arc_policy.cpp:143-172 | after every legal history the victim comes from T1 if and only if T1 has an evictable page and either T1 is over its target (or on it while a B2 ghost returns) or T2 has none, and it is the evictable page of its list whose last hit or load is longest ago |
| ArcRecency.MissAdapts | src/storage/buffer/arc_policy.cpp:77-97 | a B1 hit raises the target, a B2 hit lowers it, each by the whole number of times the hit list goes into the other ghost list but at least by 1, stopping at the capacity and at 0; nothing else of the state changes but the mark of a B2 hit, set exactly then |
| ArcRecency.StepSizeUnique | src/storage/buffer/arc_policy.cpp:77-97 | that step is one number |
| ArcRecency.HistoryAdapts | src/storage/buffer/arc_policy.cpp:55-141 | over every legal history: the target moves at exactly the misses of ghosts, by exactly that step, and the mark of a B2 hit is set by exactly the misses of B2 ghosts |
| ArcRecency.StepPlaces | src/storage/buffer/arc_policy.cpp:55-188 | over every legal history, each call moves exactly the page it is about: a hit to T2, a load to T2 if remembered and else to T1, an eviction to the ghosts of its list; an eviction with the ghosts full forgets exactly the oldest ghost of the longer list |
| PolicyRuns.ArcKnows | src/storage/buffer/arc_policy.cpp:41-188 | after every run of a pool the state is the one its calls lead to, and those calls are a legal history |
| ArcObject.ArcPolicy.RecordAccess | src/storage/buffer/arc_policy.cpp:55-75 | the object's lists and maps become those of the specified transition |
| ArcObject.ArcPolicy.RecordMiss | src/storage/buffer/arc_policy.cpp:77-97 | likewise for a miss, whose exact step is MissAdapts |
| ArcObject.ArcPolicy.RecordLoad | src/storage/buffer/arc_policy.cpp:99-121 | likewise for a load |
| ArcObject.ArcPolicy.RecordEvict | src/storage/buffer/arc_policy.cpp:123-141 | likewise for an eviction |
| ArcObject.ArcPolicy.PruneGhosts | src/storage/buffer/arc_policy.cpp:174-188 | the pruning loop computes the specified pruning |
| ArcObject.ArcPolicy.ChooseVictim | src/storage/buffer/arc_policy.cpp:143-161 | returns the specified victim or BufferPoolFull |
| Policies.Policy.Make | src/storage/buffer/eviction_policy.cpp:13-23 | every kind of policy starts out tracking no page, with bits clear, log and lists empty |
| Policies.Policy.RecordAccess | src/storage/buffer/eviction_policy.hpp:26-50 | every policy keeps tracking the resident pages; the clock sets exactly this frame's bit, LRU-K logs exactly this page, ARC makes exactly this call |
| Policies.Policy.RecordMiss | src/storage/buffer/eviction_policy.hpp:26-50 | every policy keeps tracking the resident pages; clock and LRU-K do not change, ARC makes exactly this call |
| Policies.Policy.RecordLoad | src/storage/buffer/eviction_policy.hpp:26-50 | every policy then tracks the loaded page in its frame; its state changes as for a hit, ARC's by exactly this load |
| Policies.Policy.RecordEvict | src/storage/buffer/eviction_policy.hpp:26-50 | every policy then tracks the page no more; the clock clears exactly this frame's bit, LRU-K does not change, ARC makes exactly this call |
| Policies.Policy.ChooseVictim | src/storage/buffer/eviction_policy.hpp:26-59 | every policy succeeds exactly when some frame is valid and unpinned, returns only such a frame, and otherwise BufferPoolFull; the frame is the one the state determines: first clear or first evictable from the hand, maximal backward k-distance over the log (lowest frame for k = 0), or ARC's victim; only the clock's bits and hand change |
| Replacement.ChosenUnique | src/storage/buffer/eviction_policy.hpp:26-59 | with one frame to a page, the state determines one victim |
| PoolModel.SetFlags | src/storage/buffer/buffer_pool.cpp:149-167 | pin, unpin and dirty changes that keep clean unpinned frames equal to their stored page leave the view alone |
| PoolModel.StoreBehindFrame | src/storage/buffer/buffer_pool.cpp:240-250 | any bytes written to the stored copy of a dirty frame's page, a torn write included, are invisible |
| PoolModel.Poke | src/storage/buffer/buffer_pool.cpp:89-116 | changing a held page's bytes changes exactly that page of the view |
| PoolModel.Grow | src/storage/buffer/buffer_pool.cpp:118-147 | a page added to the file is added to the view |
| PoolModel.Replace | src/storage/buffer/buffer_pool.cpp:252-295 | reusing a clean unpinned frame changes no other page of the view |
| PoolModel.FailedRead | src/storage/buffer/buffer_pool.cpp:252-262 | a failed read into a victim keeps the view exactly if the frame held no page or the bytes moved were already there |
| PoolModel.FailedReadShows | src/storage/buffer/buffer_pool.cpp:252-262 | a coherent pool whose page is seen with a byte of another page after one byte moved |
| PoolModel.AllClean | src/storage/buffer/buffer_pool.cpp:181-192 | once nothing is dirty or pinned the stored pages are the view |
| Buffering.BufferPool.constructor | src/storage/buffer/buffer_pool.cpp:57-73 | an opened pool is coherent and shows the stored pages |
| Buffering.BufferPool.FindFrame | src/storage/buffer/buffer_pool.cpp:209-217 | finds the frame of a page, if any |
| Buffering.BufferPool.PickFrame | src/storage/buffer/buffer_pool.cpp:219-238 | finds a frame exactly when one is empty or valid and unpinned: the lowest empty one if there is any, the policy then not asked, else the one the policy's state determines |
| Buffering.BufferPool.PickFrameFor | src/storage/buffer/buffer_pool.cpp:104-111 | the policy is told of exactly this miss before the frame is picked |
| Buffering.BufferPool.Touch | src/storage/buffer/buffer_pool.cpp:95-101 | the policy is told of exactly this hit |
| Buffering.BufferPool.HandOver | src/storage/buffer/buffer_pool.cpp:263-273 | the policy is told that the frame's old page, if any, leaves and then that the new one is loaded there |
| Buffering.BufferPool.WriteBack | src/storage/buffer/buffer_pool.cpp:240-250 | the view never changes; on success the stored page is the frame's and no other stored page changes, on failure the frame stays dirty |
| Buffering.BufferPool.LoadPage | src/storage/buffer/buffer_pool.cpp:252-274 | on success the page is in the frame with one pin and the view is unchanged; on failure the frame table is unchanged but for a cleaned victim, and the view is the old one exactly if the bytes moved into the victim do not show |
| Buffering.BufferPool.LoadBlank | src/storage/buffer/buffer_pool.cpp:276-295 | on success the view shows zeros for that page only; on failure nothing changes |
| Buffering.BufferPool.Fetch | src/storage/buffer/buffer_pool.cpp:89-116 | pins exactly the asked page once more with the view unchanged; on error no pin changes, bytes were moved only into a reusable victim frame and exactly a prefix of the asked page, and the view is the old one exactly if the victim held no page or those bytes were already there; the frame is the one holding the page, else the lowest empty one, else the one the policy's state, told of the miss, determines; the policy is told of exactly this hit, or of this miss, the eviction of the page that was in the frame, and the load |
| Buffering.BufferPool.FetchNew | src/storage/buffer/buffer_pool.cpp:118-147 | pins the new page as zeros and dirty; no other page of the view changes; frame and calls to the policy as for Fetch |
| Buffering.BufferPool.Unpin | src/storage/buffer/buffer_pool.cpp:149-167 | gives back exactly one pin, accumulates dirtiness and releases the handle, or refuses a released handle, one of another pool, of no frame or of an unpinned frame and changes nothing; the view is unchanged whenever the frame is left coherent |
| Buffering.BufferPool.Flush | src/storage/buffer/buffer_pool.cpp:169-179 | the view is unchanged; on success exactly the page's own frame is clean now and, if it was dirty, exactly its stored page is the frame's; a page in no frame or in a clean one changes nothing; succeeds on a healthy backend |
| Buffering.BufferPool.FlushAll | src/storage/buffer/buffer_pool.cpp:181-192 | the view and the pins are unchanged; on success all frames are clean and, with nothing pinned, the stored pages are the view, and the file is synced; succeeds on a healthy backend |
| Buffering.BufferPool.Close | src/storage/buffer/buffer_pool.cpp:75-87 | on success the stored pages are the view and are durable; on failure the pool stays open and unchanged in view |
| PolicyRuns.FetchAccounted | src/storage/buffer/buffer_pool.cpp:89-116 | a fetch is a legal continuation of the pool's calls with every victim the determined one; it uses exactly its page if it delivers and none if it fails |
| PolicyRuns.RunVictims | src/storage/buffer/buffer_pool.cpp:219-238 | every victim of every run from a fresh policy is right for what was really used before it: second chance for the clock, best over the log for LRU-K, longest ago on the right list for ARC |
| PoolRuns.VisitAll | src/storage/buffer/buffer_pool.cpp:89-167 | any run of fetches, pins given back or kept, some failing: the policy has been told of exactly the fetches that delivered, in order |
| PoolRuns.RunPool | src/storage/buffer/buffer_pool.cpp:57-238 | from a new pool with any policy, every victim of such a run is right for the pages delivered before it, and the stored pages show unchanged; on a healthy backend with pins given back every fetch of a page of the file delivers |
| HeapModel.FirstFit | src/storage/engine/heap/heap_engine.cpp:57-66 | the lowest page with room |
| HeapModel.InsertMeans | src/storage/engine/heap/heap_engine.cpp:46-68 | an insert adds one binding under an identity never issued before and changes no other |
| HeapModel.DeleteMeans | src/storage/engine/heap/heap_engine.cpp:70-89 | a delete removes exactly one binding, and the identity stays issued |
| HeapModel.EmptyPageMeans | src/storage/engine/heap/heap_engine.cpp:206-241 | a page added but never initialised stores nothing |
| HeapModel.CursorRoundTrip | src/storage/engine/heap/heap_engine.cpp:277-287 | a cursor gives back its page exactly for pages below 2^32, and then is the (page, slot) position |
| HeapModel.CursorWraps | src/storage/engine/heap/heap_engine.cpp:277-287 | at 2^32 pages the cursor past the end is the cursor of a new scan |
| HeapModel.SkipPage | src/storage/engine/heap/heap_engine.cpp:107-150 | a page without live slots from the cursor on can be passed |
| HeapModel.FoundOnPage | src/storage/engine/heap/heap_engine.cpp:243-271 | the first live slot found on a page is the next live tuple of the whole file |
| HeapModel.ScanDone | src/storage/engine/heap/heap_engine.cpp:107-150 | past the last page nothing is left |
| Engine.HeapEngine.constructor | src/storage/engine/heap/heap_engine.cpp:20-33 | opening shows the file's tuples, for any policy and any capacity of at least one |
| Engine.HeapEngine.InsertIntoExisting | src/storage/engine/heap/heap_engine.cpp:169-204 | inserts exactly if the page has room, all pins given back |
| Engine.HeapEngine.InsertIntoNew | src/storage/engine/heap/heap_engine.cpp:206-241 | refuses oversized tuples without growing the file; else the file grows by one page holding the tuple |
| Engine.HeapEngine.Insert | src/storage/engine/heap/heap_engine.cpp:46-68 | first fit, else a new page; a failure never changes what is stored; without I/O faults success is exactly admission; never BufferPoolFull |
| Engine.HeapEngine.Delete | src/storage/engine/heap/heap_engine.cpp:70-89 | empties exactly that slot; exact error for a dead or unknown one; never BufferPoolFull |
| Engine.HeapEngine.Update | src/storage/engine/heap/heap_engine.cpp:91-97 | delete then insert; when the insert fails the old tuple is gone |
| Engine.HeapEngine.BeginScan | src/storage/engine/heap/heap_engine.cpp:99-105 | an open engine gives a cursor with no position before it, so a scan from it misses nothing; a closed one gives IoError |
| Engine.HeapEngine.ScanNext | src/storage/engine/heap/heap_engine.cpp:107-150 | the first live tuple at or after the cursor with its bytes, and the cursor just past it; None only when nothing is left; after an error, always a storage error, nothing live was skipped |
| Engine.HeapEngine.Close | src/storage/engine/heap/heap_engine.cpp:35-44 | after a successful close the file, read afresh, holds exactly the engine's tuples, and durably so |
| Runs.IdentitiesNeverReused | src/storage/engine/heap/heap_engine.cpp:46-97 | over every run no two inserts return the same identity |
| Runs.TupleSurvives | src/storage/engine/heap/heap_engine.cpp:46-97 | over every run a tuple keeps its bytes until its own delete |
| Runs.DeletedForGood | src/storage/engine/heap/heap_engine.cpp:70-89 | over every run a deleted identity never comes back |
| Runs.ScanIncreases | src/storage/engine/heap/heap_engine.cpp:107-150 | any number of scans interleaved with anything: each returns strictly increasing positions until it is begun anew, so no tuple twice |
| Runs.ScanReturnsStored | src/storage/engine/heap/heap_engine.cpp:107-150 | every tuple returned was stored, with those bytes, at that step |
| Runs.ScanComplete | src/storage/engine/heap/heap_engine.cpp:107-150 | every tuple stored from the beginning of a scan to its end was returned by it, whatever was interleaved, other scans and reopens included |
| Runs.ScanExact | src/storage/engine/heap/heap_engine.cpp:107-150 | with nothing inserted or deleted meanwhile a finished scan returned exactly the tuples stored when it began, with their bytes |
| Runs.InsertIsStep | src/storage/engine/heap/heap_engine.cpp:46-68 | the heap insert is a step of the abstract database |
| Runs.DeleteIsStep | src/storage/engine/heap/heap_engine.cpp:70-89 | the heap delete is a step of the abstract database |
| Runs.RefusalIsStep | src/storage/engine/heap/heap_engine.cpp:46-89 | a failed operation is a step that changes nothing stored |
| EngineRuns.Reopen | src/storage/engine/heap/heap_engine.cpp:20-44 | close and open again, with any other pool, keep the tuples |
| EngineRuns.OutcomeIsStep | src/storage/engine/heap/heap_engine.cpp:107-150 | what one scan step answers is a step of the abstract database that moves only that scan |
| Engine.AcceptsAll | src/storage/engine/heap/heap_engine.cpp:46-68 | below 2^32 pages every tuple an empty page can hold is admitted |
| EngineRuns.Perform | src/storage/engine/heap/heap_engine.cpp:46-150 | each operation on the bytes is a step of the abstract database; an insert no page can hold and a delete of what is not stored are refused, on a healthy backend nothing else is, and BufferPoolFull never comes |
| EngineRuns.Run | src/storage/engine/heap/heap_engine.cpp:20-150 | every run over page bytes, with any number of scans, any policy, any capacity, any fault schedule whose failing reads move no bytes, reopens included, is a trace of the abstract database that stops early only at a reopen; on a healthy backend every operation is answered and exactly the unacceptable ones are refused; a successful close leaves that database in the file, synced |
| RowFormat.U32RoundTrip | src/types/row_codec.cpp:17-39 | a u32 is read back modulo 2^32 |
| RowFormat.SetNullIs | src/types/row_codec.cpp:45-57 | setting a bit of the bitmap sets that bit and no other |
| RowFormat.BitmapIs | src/types/row_codec.cpp:41-57 | the bitmap of a row says NULL for exactly its NULL values |
| RowFormat.NullBit | src/types/row_codec.cpp:41-57 | column 8 j + k is bit k of byte j of the bitmap, from the least significant |
| RowFormat.ColumnStored | src/types/row_codec.cpp:64-122 | the entry of a value is its offset, just after all values before it, and its length, and its bytes stand there |
| RowFormat.NullEntry | src/types/row_codec.cpp:64-122 | the entry of a NULL is zeros |
| RowFormat.EncodeErrors | src/types/row_codec.cpp:64-122 | a row that is refused is refused for its first unfit column: TypeNotFound if its type is unknown, else InvalidArgument |
| RowFormat.DecodeExact | src/types/row_codec.cpp:124-187 | arbitrary bytes decode to a row if and only if they count its columns, have room for the header and give each column its value: the bitmap's bit, offset and length of its entry, bytes after the header and inside the tuple, of the type's fixed size |
| RowFormat.DecodeErrors | src/types/row_codec.cpp:150-184 | bytes that do not decode are reported for their first bad column: TypeNotFound if its type is unknown, else Corruption |
| RowFormat.Encode | src/types/row_codec.cpp:64-122 | accepts a row exactly if it has one fitting value per column, and never encodes to nothing |
| RowFormat.Decode | src/types/row_codec.cpp:124-187 | total on arbitrary bytes; one value per column |
| RowFormat.DecodeColumn | src/types/row_codec.cpp:150-184 | a decoded value has the column's type and fixed size; a NULL has no bytes |
| RowFormat.RoundTrip | src/types/row_codec.cpp:64-187 | every accepted row below 2^32 bytes decodes to itself, NULL payloads emptied |
| RowFormat.Reencodes | src/types/row_codec.cpp:124-187 | decoded rows can be encoded again exactly when NULLs stand only in nullable columns |
| RowFormat.NullableNotChecked | src/types/row_codec.cpp:165-170 | decode accepts a NULL in a column that is not nullable |
| RowCodecs.RowCodec.EncodeRow | src/types/row_codec.cpp:64-122 | the loop over bitmap, entries and payload computes the specified bytes or error |
| RowCodecs.RowCodec.DecodeRow | src/types/row_codec.cpp:124-187 | the decoding loop computes the specified row or error |
| RowCodecs.RowCodec.ReadColumn | src/types/row_codec.cpp:150-184 | one turn of that loop |
| Tables.StoresInsert | src/catalog/table.cpp:14-24 | the rows a heap stands for gain exactly the inserted row |
| Tables.ListingUnique | src/catalog/table.cpp:26-58 | the list a finished scan gives is determined by the stored rows |
| Tables.ScanExtends | src/catalog/table.cpp:26-58 | one more scan step extends a correct partial list |
| Tables.DecodedAreStored | src/catalog/table.cpp:26-58 | a file whose tuples all decode is a table of what they decode to |
| Tables.ReopenedRows | src/catalog/table.cpp:26-58 | the rows of a table, read afresh from its heap, are the stored ones with NULLs emptied, and every scan lists the same |
| Tables.Table.constructor | src/catalog/catalog.cpp:705-743 | a table over an open engine has the rows its tuples decode to, whenever all of them decode |
| Tables.OpenEmpty | src/catalog/catalog.cpp:705-743 | a table over a file without pages has no rows |
| Tables.Reopen | src/catalog/catalog.cpp:705-743 | closing a table and opening its file with another pool keeps its rows, NULLs emptied, and succeeds on a healthy backend |
| Tables.Table.Insert | src/catalog/table.cpp:14-24 | stores the row under a new identity or changes no row; on a healthy backend below 2^32 pages exactly when it encodes and its bytes fit an empty page |
| Tables.Table.ScanRows | src/catalog/table.cpp:26-58 | every stored row once, in heap order, as inserted but for NULL payloads; succeeds on a healthy backend |
| Binding.NullNeverBinds | src/query/binder.cpp:346-362 | no expression with a NULL literal binds without a target type |
| Evaluation.FindValueAt | src/query/exec.cpp:24-31 | a column reference finds its own value |
| Evaluation.ComparisonLaws | src/query/exec.cpp:49-81 | the six operators are those of an ordering: complements and mirror images of one another |
| Evaluation.FindColumnExact | src/query/binder.cpp:333-344 | a name is found exactly when some column has it, letter case aside, and then the first one |
| Numerals.NumeralUnique | src/query/binder.cpp:364-416 | a number has one decimal numeral: only zero starts with 0 |
| Evaluation.DenotesIs | src/query/binder.cpp:364-416 | the text a literal is converted from is, kind by kind, its own: a string as written, a numeral of the integer, true or false, the float's text |
| Evaluation.BindingMirrors | src/query/binder.cpp:418-500 | the bound expression has the written operators on operands of the types found, the columns named, and each literal converted from exactly the text its kind says |
| Evaluation.MirrorsUnique | src/query/binder.cpp:418-500 | no two bound expressions mirror one written expression at the same type |
| Evaluation.BindExact | src/query/binder.cpp:418-500 | b is the binding of e if and only if e has a type and b mirrors e at that type |
| Evaluation.BindErrors | src/query/binder.cpp:333-500 | what does not bind fails with AnalyzerError, or with TypeNotFound where the catalog lacks a type the binder needs |
| Evaluation.BindsTyped | src/query/binder.cpp:418-500 | an expression binds if and only if it has a type, and to that type: literals by their kind and text, columns by the first of that name, AND and OR on bool, comparisons on equal types or with a literal of the other type |
| Evaluation.ComparesBothWays | src/query/binder.cpp:470-492 | a comparison that binds also binds with its sides exchanged if and only if they have one type, are not both literals, or the right literal converts to the type of the left |
| Evaluation.OneWay | src/query/binder.cpp:470-492 | 1 = 'x' binds and 'x' = 1 does not |
| Evaluation.LiteralEvaluates | src/query/binder.cpp:364-416 | a bound literal evaluates to its bound type |
| Evaluation.BinaryEvaluates | src/query/exec.cpp:83-129 | operators on values of registered types evaluate to bool |
| Evaluation.SampleEnvOk | src/types/builtin_types.cpp:262-276 | a registry and environment as the soundness theorems ask for exist |
| Evaluation.BindingSound | src/query/binder.cpp:333-500 | whatever binds against a table evaluates on every row of it, to a value of the static type |
| ThreeValued.BindingTyped | src/query/binder.cpp:444-500 | bound operators have operands of equal types, boolean for AND and OR |
| ThreeValued.BindingOver | src/query/binder.cpp:418-500 | bound expressions use only columns of their table and registered types |
| ThreeValued.OperatorAgrees | src/query/exec.cpp:49-129 | where SQL's three-valued tables have an answer, the two-valued operator gives it |
| ThreeValued.KnownAgrees | src/query/exec.cpp:83-129 | where SQL knows the value of an expression, the evaluator computes it |
| ThreeValued.KeepsEveryTruth | src/query/exec.cpp:337-365 | no row for which the search condition is true is dropped |
| ThreeValued.KeepsExactly | src/query/exec.cpp:337-365 | the evaluator keeps exactly SQL's rows if and only if no comparison with an unknown operand compares true |
| ThreeValued.SafeNeverLeaks | src/query/exec.cpp:337-365 | a condition whose comparisons of truth values read no NULL of the row is never in that failing family |
| ThreeValued.FlatIsSafe | src/query/exec.cpp:337-365 | comparisons over columns and literals are safe in that sense on every row |
| ThreeValued.NoNullsIsSafe | src/query/exec.cpp:337-365 | so is every condition on a row without NULLs |
| ThreeValued.WhereClause | src/query/exec.cpp:337-365 | all of these for a WHERE clause as written |
| ThreeValued.NullComparedIsFalse | src/query/exec.cpp:49-81 | (x = y) = FALSE keeps rows with NULL x, which SQL does not |
| Plans.BindColumnsAt | src/query/binder.cpp:308-324 | one column per schema column, in order, numbered from 1, of registered type |
| Plans.BindSelectExact | src/query/binder.cpp:234-282 | a bound SELECT is the binding of a written one if and only if it has the same items in order, stars and aliases included, each expression resolved, and a condition exactly when one is written, resolved and boolean; it binds if and only if every item has a type and the condition is boolean |
| Plans.SelectErrors | src/query/binder.cpp:234-282 | a SELECT that does not bind fails with a binder's error |
| Plans.AnswerPicks | src/query/exec.cpp:337-429 | the answer is the select list's values of exactly the rows the written condition keeps, in order: each such row once and no other |
| Plans.ProjectRowIs | src/query/exec.cpp:393-429 | projection yields the select list's values with * expanded |
| Plans.ProjectedHeading | src/query/exec.cpp:131-161 | projected columns announce the select list's names and the types of the values |
| Plans.PlanningPreserves | src/query/logical_plan.cpp:27-40 | the physical plan of a statement yields the stream of the statement |
| Plans.StreamAnswers | src/query/exec.cpp:275-442 | the row-at-a-time stream is the list comprehension over the scan, every row under the select list's heading and of the types announced |
| Plans.BoundRuns | src/query/binder.cpp:234-282 | every expression of a bound SELECT evaluates on every row of the table |
| Plans.SelectAnswers | src/query/physical_plan.cpp:18-61 | a bound SELECT, planned and lowered, delivers the comprehension under the select list's heading and never fails |
| Plans.SafeSelectIsSql | src/query/exec.cpp:337-365 | a SELECT whose condition is safe on every row answers as SQL does, NULLs included |
| Plans.FlatSelectIsSql | src/query/exec.cpp:337-365 | with comparisons over columns and literals, the answer is SQL's, NULLs included |
| Executor.ExecNode.Next | src/query/exec.cpp:298-429 | returns the head of what is pending and leaves the tail; End and failures as specified |
| Executor.ExecNode.NextScan | src/query/exec.cpp:298-308 | the scan node hands out its rows in order |
| Executor.ExecNode.NextKept | src/query/exec.cpp:337-365 | the filter loop terminates and skips exactly the rows whose condition is false |
| Executor.ExecNode.NextProjected | src/query/exec.cpp:393-429 | the projection node maps each row |
| Executor.ExecNode.MakeRow | src/query/exec.cpp:407-428 | the item loop builds the projected row |
| Executor.ExecNode.Start | src/query/exec.cpp:280-296 | opening makes the whole yield of the plan pending |
| Executor.ExecNode.Close | src/query/exec.cpp:310-315 | a closed chain is no longer running |
| Executor.Build | src/query/exec.cpp:457-495 | the operators built are those of the plan |
| Executor.Drain | src/query/query_engine.cpp:60-82 | draining terminates and collects exactly the pending rows, or the first error |
| Executor.DeliveredIsCollected | src/query/query_engine.cpp:60-82 | a stream that delivers its values is collected whole, headings included |
| Statements.BindTable | src/query/binder.cpp:284-331 | the loop binds all columns, and fails exactly on an unregistered type |
| Statements.BoundTableOk | src/query/binder.cpp:284-331 | a bound table is one the soundness theorem covers |
| Statements.BindSelectStmt | src/query/binder.cpp:234-282 | the loop computes the binding that BindSelectExact determines, or reports the first error |
| Statements.BindingUnderstands | src/query/binder.cpp:234-282 | what a SELECT is answered for is what its text means: bound if and only if typed, every item and the condition as written |
| Statements.ListedTyped | src/catalog/table.cpp:26-58 | rows scanned from storage have the schema's types, NULLs without bytes |
| Statements.RunPlan | src/query/query_engine.cpp:37-85 | building, opening and draining a plan collects its yield |
| Statements.Select | src/query/query_engine.cpp:17-85 | a SELECT over a stored table: it is bound if and only if it is typed, to exactly what is written, and otherwise refused with a binder's error; then exactly the comprehension over the stored rows in heap order under the right heading; the only other failures are storage errors, and none on a healthy backend |
| Inserting.EntryExact | src/query/binder.cpp:205-225 | a literal is taken for a column if and only if it is NULL and the column allows it, or its own text converts to the column's type, and then to that value |
| Inserting.BindRowExact | src/query/binder.cpp:212-224 | a row binds if and only if each literal is taken for the column of its place, and then to those values in order |
| Inserting.BindRowsExact | src/query/binder.cpp:199-225 | the rows bind if and only if every one has as many literals as columns and binds, and then to as many rows in the same order |
| Inserting.BindInsertExact | src/query/binder.cpp:171-232 | a bound INSERT is the binding of a written one if and only if its columns are those listed, or all, and its rows are the written rows, each literal converted for its own column; it binds if and only if list and rows are typed |
| Inserting.InsertErrors | src/query/binder.cpp:171-232 | an INSERT that does not bind fails with AnalyzerError |
| Inserting.TargetsExact | src/query/binder.cpp:177-197 | a column list is accepted if and only if every name is a column's and none comes twice, letter case aside; each name then stands for its first column |
| Inserting.BindTargets | src/query/binder.cpp:177-197 | the target list loop computes that list or its first error |
| Inserting.BindValueRow | src/query/binder.cpp:212-224 | the loop computes the specified row or its first error |
| Inserting.BindInsertStmt | src/query/binder.cpp:171-232 | the loops compute the binding that BindInsertExact determines, or its first error |
| Inserting.InsertRows | src/query/exec.cpp:226-249 | rows go in one by one under new identities; a refused row stops the statement and the earlier ones stay; on a healthy small file it succeeds exactly if every row can be stored and else stops at the first that cannot, with the codec's error where the codec refuses it |
| Inserting.BoundRowEncodes | src/query/exec.cpp:235-245 | a bound row is accepted by the codec if and only if the list matches the schema in length and, position by position, in type, with NULLs and sizes fitting where the values land |
| Inserting.PositionIsName | src/query/exec.cpp:235-245 | an accepted row stored by position is the row the column list says if and only if each value equals the one listed at the position of its column |
| Inserting.OwnListInPlace | src/query/exec.cpp:235-245 | so it is for every row when the list is the schema's own or none is given |
| Inserting.SwappedList | src/query/exec.cpp:235-245 | INSERT (b, a) over two bool columns a, b binds, is accepted and stores the values in the wrong columns |
| Inserting.Insert | src/query/exec.cpp:226-249 | an INSERT over a stored table: it binds if and only if list and rows are typed, to exactly the written rows; what does not bind is an AnalyzerError and changes nothing; otherwise the bound rows are stored up to the first that cannot be, each one as its column list says exactly when its values are in place; on a healthy small file it succeeds exactly if every bound row can be stored |
| QueryEngine.Execute | src/query/query_engine.cpp:17-85 | SQL text to rows over any number of tables: the parser's error, InvalidArgument unless the text is one statement, AnalyzerError for an unknown table, a binder's error exactly for a statement that is not typed, else the answer to exactly the written SELECT over the stored rows, under its heading; no row of any table changes |
| QueryEngine.PrintedSelects | src/query/query_engine.cpp:17-85 | the text of a writable SELECT is answered exactly as that SELECT |
| QueryEngine.TextAnswersAsSql | src/query/query_engine.cpp:17-85 | on a healthy backend the text of a SELECT gets SQL's answer to what is written, on the stored rows in heap order, its condition safe on them |
| QueryEngine.ListedAnswersAsSql | src/query/query_engine.cpp:17-85 | the same over any listing of the stored rows |
| Lexemes.WordKindIs | src/query/lexer.cpp:141-166 | the 64-character cut changes no keyword decision |
| Lexemes.ColumnMeans | src/query/lexer.cpp:76-86 | a column number counts from the last newline |
| Lexemes.LineMeans | src/query/lexer.cpp:76-86 | a line number is one more than the newlines before the place |
| Lexemes.SkipIsGap | src/query/lexer.cpp:94-139 | what is skipped is white space and comments only, and comments end where they should |
| Lexemes.Skip | src/query/lexer.cpp:112-139 | after skipping neither white space nor a comment starts |
| Lexemes.Scan | src/query/lexer.cpp:223-280 | every token is non-empty and inside the text |
| Lexemes.Lex | src/query/lexer.cpp:223-288 | there are at most as many tokens as characters |
| Lexemes.WordsOfTokens | src/query/lexer.cpp:223-288 | the tokens with their positions are the tokens of the text |
| Lexemes.TokensDivide | src/query/lexer.cpp:94-288 | every text is its tokens, each the slice at its start with the line and column of that place, with white space and comments only before, between and after them |
| Lexemes.DividedInOrder | src/query/lexer.cpp:94-288 | such tokens are non-empty, in order, disjoint and inside the text |
| LexerObject.Lexer.Advance | src/query/lexer.cpp:76-86 | line and column stay those of the position |
| LexerObject.Lexer.SkipBlank | src/query/lexer.cpp:112-139 | the skipping loops stop at the specified place |
| LexerObject.Lexer.ScanWord | src/query/lexer.cpp:141-166 | takes the whole word and classifies it |
| LexerObject.Lexer.ScanNumber | src/query/lexer.cpp:168-204 | takes integer part, fraction and exponent as specified |
| LexerObject.Lexer.ScanString | src/query/lexer.cpp:206-221 | stops after the closing quote, or at the end of the text |
| LexerObject.Lexer.ScanOne | src/query/lexer.cpp:223-280 | the token is the slice after the gap, with the line and column of its start |
| LexerObject.Lexer.Next | src/query/lexer.cpp:282-288 | returns the tokens of the text one by one with their positions, then Eof at the end of the text forever |
| LexerObject.Lexer.Peek | src/query/lexer.cpp:290-296 | shows the token Next would return, position included, and takes nothing |
| Grammar.OrReads | src/query/parser.cpp:413-593 | every sentence of the grammar, with any redundant parentheses, is read as it is meant |
| Grammar.OrSound | src/query/parser.cpp:413-593 | whatever the parser reads is a sentence with that meaning, as long as it can be |
| Grammar.ParsesTheGrammar | src/query/parser.cpp:413-593 | the parser reads e from a prefix if and only if the grammar derives it: OR below AND below comparison, AND and OR to the left, comparison without association |
| Grammar.RangeOfValue | src/query/parser.cpp:545-558 | whether a float literal is in range depends on its value, not on where its decimal point stands |
| Grammar.TooLarge | src/query/parser.cpp:545-558 | every float literal but zero scaled by 10^320 or more is refused, 1e999 for one |
| Grammar.TooSmall | src/query/parser.cpp:545-558 | every float literal but zero whose digits are worth at most 10^k, scaled by 10^-(k + 336) or less, is refused, 1e-999 for one |
| Grammar.IntegerExact | src/query/parser.cpp:530-542 | an integer token is read as n if and only if it is n's numeral, zeros in front allowed, and n fits 64 bits |
| Grammar.QuoteRoundTrip | src/query/parser.cpp:560-580 | quoting by doubling and unescaping give the string back |
| Numerals.DigitsRead | src/query/parser.cpp:530-542 | the decimal text of a number is read as that number |
| Grammar.PrintParse | src/query/parser.cpp:413-593 | every expression printed with minimal parentheses is read back |
| Grammar.FewestParens | src/query/parser.cpp:413-593 | no grammatical writing of an expression has fewer parentheses than the printer's |
| SourceText.StringToken | src/query/lexer.cpp:206-221 | a string token is a quoted string or, at the end of the text, an unclosed one |
| SourceText.UnclosedString | src/query/parser.cpp:560-580 | an unclosed string keeps its text if and only if it is empty or ends in a quote; otherwise it loses its last character |
| SourceText.TokenMeans | src/query/lexer.cpp:141-280 | what a token is, by its first character: the whole word, a keyword or a name; a number, integer or float; a string; a sign; or one unknown character |
| SourceText.FloatToken | src/query/lexer.cpp:168-204 | every float token is digits with a point and digits, or with an exponent, or with both |
| SourceText.FloatScans | src/query/lexer.cpp:168-204 | every such text followed by a blank is one float token |
| SourceText.FloatValue | src/query/parser.cpp:545-558 | what a float token counts for: its digits without the point, scaled by its exponent less the digits after the point |
| SourceText.TokenScans | src/query/lexer.cpp:223-280 | a written token followed by a blank is scanned whole, wherever it stands |
| SourceText.Rendered | src/query/lexer.cpp:223-288 | written tokens, rendered as text, lex to themselves |
| SourceText.TextRoundTrip | src/query/parser.cpp:413-593 | every writable expression, floats included, printed as text, lexed and parsed, is itself again |
| SourceText.SelectTextRoundTrip | src/query/parser.cpp:335-392 | the same for every writable SELECT statement |
| SourceText.ScriptTextRoundTrip | src/query/parser.cpp:75-90 | the same for every list of writable SELECTs, separated by semicolons |
| SelectSyntax.SelectExact | src/query/parser.cpp:335-392 | a SELECT is read if and only if the grammar has it, and then exactly that one: items with commas between and perhaps aliases, FROM and a name, perhaps WHERE and an expression |
| SelectSyntax.ScriptExact | src/query/parser.cpp:75-90 | a text's statements are read if and only if the grammar has them, with optional semicolons, and then exactly those |
| SelectSyntax.ScriptReads | src/query/parser.cpp:75-90 | every list of writable SELECTs is read back from its tokens |
| SelectSyntax.SelectReads | src/query/parser.cpp:335-392 | every writable SELECT is read back from its tokens |
| ParserObject.Parser.constructor | src/query/parser.cpp:17-19 | the parser starts with all the tokens of the text ahead |
| ParserObject.Parser.Match | src/query/parser.cpp:29-35 | takes the token exactly if it is of the kind |
| ParserObject.Parser.ReadOr | src/query/parser.cpp:417-435 | the OR loop terminates with the specified tree and rest |
| ParserObject.Parser.ReadAnd | src/query/parser.cpp:437-455 | the AND loop terminates with the specified tree and rest |
| ParserObject.Parser.ReadNot | src/query/parser.cpp:457-464 | NOT is refused |
| ParserObject.Parser.ReadCmp | src/query/parser.cpp:466-503 | at most one comparison |
| ParserObject.Parser.ReadPrimary | src/query/parser.cpp:505-593 | atoms and parentheses as specified |
| ParserObject.Parser.UnescapeText | src/query/parser.cpp:560-580 | the unescaping loop computes the specified text |
| ParserObject.Parser.ReadItems | src/query/parser.cpp:367-392 | the select-list loop terminates with the specified items and rest |
| ParserObject.Parser.ReadSelect | src/query/parser.cpp:335-365 | the statement and rest as specified |
| ParserObject.Parser.ReadScript | src/query/parser.cpp:75-90 | the statement loop terminates with the specified statements, semicolons optional |
| CatalogModel.SortedIs | src/catalog/catalog.cpp:532-536 | sorting keeps the rows and orders their numbers |
| CatalogModel.LargestLast | src/catalog/catalog.cpp:532-536 | a row with the largest number sorts last wherever the heap put it |
| CatalogModel.AddAttr | src/catalog/catalog.cpp:595-612 | adding an attribute row extends its own relation at the end and no other |
| CatalogModel.RemoveAttr | src/catalog/catalog.cpp:690-694 | removing a row of one relation touches no other |
| CatalogModel.FirstFaultIs | src/catalog/catalog.cpp:662-703 | the first failing step of a schedule is one that fails, and none before it does |
| CatalogModel.NameStaysTaken | src/catalog/catalog.cpp:561-624 | a create that failed after writing its class row keeps the name taken |
| CatalogModel.AddClassFind | src/catalog/catalog.cpp:588-593 | adding a class changes no other name's answer |
| CatalogModel.RemoveClass | src/catalog/catalog.cpp:695-698 | removing a class changes no other name's answer, and its own name is gone |
| CatalogObject.Catalog.GetClass | src/catalog/catalog.cpp:483-508 | a cached answer is the one a scan gives; NotFound exactly when a scan finds none |
| CatalogObject.Catalog.GetAttributes | src/catalog/catalog.cpp:510-540 | a cached answer is the scan's, sorted by number, unless the relation is stale; no relation's staleness changes |
| CatalogObject.Catalog.NextOid | src/catalog/catalog.cpp:542-559 | one above the largest |
| CatalogObject.Catalog.EnsureOpen | src/catalog/catalog.cpp:705-743 | the open table has the schema of its attribute rows, unless the relation is stale; no relation's staleness changes |
| CatalogObject.Catalog.OpenTable | src/catalog/catalog.cpp:745-758 | the schema opened by name is that of the class a scan finds |
| CatalogObject.Catalog.CreateTable | src/catalog/catalog.cpp:561-624 | names and oids stay unique, caches as right as before, every other table untouched; the schema opened afterwards is the one given, in order; a failure leaves the tables as they were, or with the new class and the first of its columns; when no storage step fails it succeeds exactly if the name is not empty and free, there are columns and their types are registered |
| CatalogObject.Catalog.DropTable | src/catalog/catalog.cpp:662-703 | a successful drop forgets exactly that table; after a failed one, what is cached of other tables is as right as before, and what is cached of this one is wrong if and only if it was already or an attribute row was deleted and something of the table was cached or open; how far it gets is decided by the first failing of its steps |
| CatalogObject.Perform | src/catalog/catalog.cpp:483-758 | each operation answers as a scan of the system tables does, but for the attributes and schema of suspect relations; only a drop that stopped after deleting attribute rows makes a relation suspect, and dropping it for good clears it |
| CatalogObject.RunCatalog | src/catalog/catalog.cpp:483-758 | every run of create, drop, open, get and list, whatever storage steps fail: names and oids stay unique, and every answer is the one a scan at that moment gives, but for the attributes and schema of relations half-dropped and not dropped since |
| CatalogObject.RunAnswers | src/catalog/catalog.cpp:483-758 | the same at each single step of a run; with no failing step exactly the requests that cannot be met are refused |
| CatalogObject.NothingSuspect | src/catalog/catalog.cpp:483-758 | with no failing step no relation is ever suspect |
| CatalogObject.StaleCache | src/catalog/catalog.cpp:662-703 | a run with one failing step after which get_attributes shows a column the tables no longer have |
| CatalogObject.RowsComeBack | src/catalog/catalog.cpp:542-703 | a run after which a newly created table opens with the rows of the dropped one |
| CatalogObject.DropThenCreate | src/catalog/catalog.cpp:542-703 | a table created after a drop gets the dropped oid if and only if that stood just above all others, and its backend holds the rows that oid's backend held before; when no storage step fails each of the two is refused only if it cannot be met |
| CatalogObject.AfterCut | src/catalog/catalog.cpp:690-703 | what deleting some of a relation's attribute rows does to what is cached: no other relation changes, this one is stale if and only if it was or rows were deleted and it is cached or open |

## Left out

- Storage.StorageIO.Read: the backend is a byte sequence with a schedule of failures; system calls and mmap are not modelled. What is durable is what the last successful sync covered; of anything later nothing is said.
- Buffering.BufferPool.Fetch: after a failed read that moved bytes the pool may no longer be coherent, so the engine results assume that failing reads move no bytes.
- Buffering.BufferPool.constructor: an aligned file; the source also opens a pool over any other, whose page operations then report Corruption.
- Buffering.BufferPool.LoadBlank: a page of the file, as the one caller, `allocate_page` followed by `fetch_new`, passes.
- Buffering.BufferPool.FetchNew: likewise a page of the file.
- Buffering.BufferPool.Unpin: a handle is a value, handed back released; a client that keeps a copy of it is not stopped from using it. A handle dropped without unpinning keeps its pin, as in the source.
- Engine.HeapEngine.constructor: page sizes from 28 to 65535 and an aligned file of well-formed or all-zero pages. The page layer does not detect all others: see `SlottedPage.CorruptOutOfReach`.
- HeapPage.InsertTuple: nothing is said of a page on which the source would read or write past the end of the buffer; likewise for HeapPage.DeleteTuple, HeapPage.OverwriteTuple, HeapPage.ReadTuple and HeapPage.IsLiveSlot.
- Engine.HeapEngine.Insert: the tuple is not empty, which the source asserts.
- Engine.HeapEngine.Close: after a failed flush the engine counts as closed and unflushed changes are lost, as in the source.
- Engine.HeapEngine.ScanNext: files of fewer than 2^32 pages. `end_scan` sets the handle back as `begin_scan` does, so in runs it is a beginning.
- LruK.LruKPolicy.RecordAccess: the 64-bit tick is unbounded here.
- Latches and thread scheduling: each latched operation is one step.
- RowFormat.RoundTrip: rows of less than 2^32 bytes, since offsets are stored in 32 bits.
- Types are a registered pair of text conversions, an ordering and an optional fixed size; numeric and float text conversion is not modelled. A float literal is carried by its text, and what it becomes when converted to a binary float and written back with six decimals is a parameter of the binder; it is taken to be out of range when rounding to the nearest binary64 value gives infinity, or zero for a value that is not.
- LexerObject.Lexer.Advance: 32-bit line and column counters are unbounded here.
- Parsing of CREATE TABLE and INSERT: easy loops of the same shape as SELECT.
- QueryEngine.Execute: texts in which no CREATE or INSERT keyword occurs; the catalog is given as a map from names to open tables, system tables included if they are to be selected from; files of fewer than 2^32 pages, as for the scan.
- Tables.Table.constructor: nothing is said of a file with tuples that do not decode; scanning one reports Corruption in the source.
- Tables.Table.ScanRows: files of fewer than 2^32 pages, as for the engine's scan.
- Statements.Select: likewise files of fewer than 2^32 pages.
- Binding and execution of CREATE TABLE, and type-name canonicalisation: easy case tables.
- Executor.ExecNode.Start: opening a scan takes the rows already read from the table; the lookup of the table by name is in the catalog model.
- CatalogObject.Catalog.CreateTable: system-table rows are taken as decoded records; their text encoding, 32-bit oids, the type cache, and bootstrap are not modelled. Backends are found by relation oid, as the factories of the repository's tests find them.
- Error messages, logging, factories and primitive wrapper types: no behaviour of their own.
- Transactions, write-ahead log, optimizer, joins, indexes and sessions: not in the source.
