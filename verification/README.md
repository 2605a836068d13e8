# yadb: the storage engine and the SELECT path, verified

yadb is a small SQL database. This project models the parts whose correctness is hardest to see
from the code: the slotted page at the level of its bytes, in-place sorting of a page, the buffer
pool with its replacement policy, the heap-file table with its cursor and page allocator, the
shared spinlock, the row codec, the SELECT pipeline and the catalog cache.

Code that changes state in place is modelled by methods on byte arrays and by classes with
mutable fields. Their contracts speak of a decoded or abstract value, and the main theorems are
stated over whole runs.

| file | content | main results |
|---|---|---|
| Bytes, LittleEndian, Wrappers | bytes, packed integers, options and results | fields read back what was stored |
| PageFormat | slotted page on `array<byte>`, abstracted to a map from slot id to record bytes | each operation keeps `Wf` and is a map update |
| PageVacuum | priority-queue compaction with overlapping moves | no move damages a waiting record; the map is unchanged |
| PageSpace | how much room records need | vacuuming is optimal; it never leaves a heap page |
| PageSort | directory compaction and quicksort of the directory | sorted, same multiset of records, bytes untouched, for every strict order |
| PageRuns | runs of all page operations | every run refines a machine over records, holes and free space; slot ids are stable handles; rearranging conserves records |
| HeapPage, Checksum | page links, checksum | links and records do not interfere; which changes go undetected |
| DiskFile, DiskTable, TableScan | page allocator, linked heap file, cursor | a table is a map from row ids; ids are never issued twice; a scan yields each row once |
| EphemeralTable, TableSimulation | in-memory table with its cursor, both tables in lock step | equal up to a bijection on row ids, for every operation sequence |
| TableStorage, TableHandle | tables and cursors of either engine, tables of typed rows | each stored row is scanned once and reads back |
| LruKReplacer, BufferPool, PoolRuns, PoolCounter | replacement policy, write-back cache, whole runs | every run refines a plain map from page id to bytes, requests are refused only for a stated reason, shutdown writes that map as far as the disk accepts it, and the drifting counter is known at every point |
| SharedSpinlock | compare-and-swap protocol, any number of threads | mutual exclusion and the meaning of the lock word in every reachable state; a try fails only if somebody held the lock |
| RowCodec, Doubles, Literals, Conditions, QueryPipeline, QueryMeaning, QueryRuns | codec, numbers and literals, conditions, iterators, relational meaning, runs | a SELECT over bytes is filter and project over typed rows, also after any inserts, updates and deletes, on either engine |
| CatalogRows, Catalog | schema cache over two stored tables | after any run, a reload in any order rebuilds the cache |

Properties that the code does not have in full generality are stated with the exact condition:
deleting a dead slot or row (`PageFormat.DeleteSlot`, `DiskTable.HeapTable.DeleteRow`), vacuuming
a heap page (`PageSpace.VacuumBreaksHeapPages`), inserting a row that does not fit
(`DiskTable.HeapTable.InsertRow`), 32-bit page offsets (`DiskFile.OffsetsOverlapIff`), the
evictable counter (`LruKReplacer.CountStaysExactIff`, `PoolCounter.CounterIsExactIff`) and the
requests that depend on it (`PoolCounter.CounterIsZeroIff`, `PoolCounter.RefusedThoughFree`), a failed
page read (`BufferPool.FailedReadKeepsPoolIff`), refused writes at shutdown
(`BufferPool.Pool.FlushAll`), opposite operators on doubles (`Conditions.NegationIff`) and names too
long for the catalog tables (`Catalog.AddedOnDiskIff`, `Catalog.AddedInMemoryIff`). Where
documentation and code disagree the model follows the code: the header of the replacer describes the order of LRU-K, which `EvictFrame` implements
exactly for k = 1 (`LruKReplacer.FollowsPolicyIff`); the pool leaves k at 0, where no history is
kept at all.

## Model

| member | source | states |
|---|---|---|
| `PageFormat.FormatIsFixed` | include/storage/on_disk/page/page_format.h:97-155 | the byte positions of the header fields and of the parts of each directory entry, on every page |
| `PageFormat.InitPage` | src/storage/on_disk/page/page_format.cpp:88-94 | whatever the bytes were, the page is well-formed, has no slots and stands for the empty map; checksum and body bytes are untouched |
| `PageFormat.ReadRecord` | src/storage/on_disk/page/page_format.cpp:151-158 | returns the bytes that the abstract map holds for a live slot |
| `PageFormat.WriteRecord` | src/storage/on_disk/page/page_format.cpp:160-167 | writing a whole record updates the map at that slot only, keeps directory, links and well-formedness |
| `PageFormat.AllocateSlot` | src/storage/on_disk/page/page_format.cpp:169-189 | succeeds exactly if record and entry fit in the free space; then adds one record of the requested size under a new id and keeps every other record; otherwise changes no byte |
| `PageFormat.AllocateSlotOrReuseSlot` | src/storage/on_disk/page/page_format.cpp:191-222 | fails exactly if no deleted slot is large enough or can take fresh space and free space is below size + 5; otherwise the first such slot, previously not live, gets the requested size and every other record keeps its bytes |
| `PageFormat.FindReusable` | src/storage/on_disk/page/page_format.cpp:197-218 | the scan stops at the first deleted slot that fits |
| `PageFormat.DeleteSlot` | src/storage/on_disk/page/page_format.cpp:224-228 | removes exactly one record of the map; the page stays well-formed if and only if the slot was live |
| `PageFormat.SetSlotDeleted` | src/storage/on_disk/page/page_format.cpp:230-240 | the decoded directory changes in one field of one entry, no byte outside the entry changes |
| `PageFormat.SetSlotOffset` | src/storage/on_disk/page/page_format.cpp:242-250 | the decoded directory changes in one field of one entry, no byte outside the entry changes |
| `PageFormat.SetSlotSize` | src/storage/on_disk/page/page_format.cpp:252-260 | the decoded directory changes in one field of one entry, no byte outside the entry changes |
| `PageFormat.AppendIsWf` | src/storage/on_disk/page/page_format.cpp:169-189 | appending a slot keeps extents disjoint and inside [free end, limit) and the count exact |
| `PageFormat.ReusedIsWf` | src/storage/on_disk/page/page_format.cpp:201-217 | so does reusing a slot, in its old extent or a fresh one |
| `PageFormat.DeletedIsWfIff` | src/storage/on_disk/page/page_format.cpp:224-228 | marking a slot deleted and decrementing the 16-bit count keeps the invariant exactly for a live slot |
| `PageFormat.OtherRecordsKept` | src/storage/on_disk/page/page_format.cpp:160-228 | changing one entry and no foreign extent changes the map at that slot only |
| `PageVacuum.VacuumPage` | src/storage/on_disk/page/page_format.cpp:306-347 | the map from slot id to bytes, the tuple count and the slots are unchanged; free end is the page size minus the live bytes; deleted slots are empty; the page is well-formed |
| `PageVacuum.CollectLive` | src/storage/on_disk/page/page_format.cpp:323-335 | exactly the live slots are queued with their extents, and deleted slots lose theirs |
| `PageVacuum.PopTop` | src/storage/on_disk/page/page_format.cpp:314-321 | the popped entry has the highest offset, ties broken in any way |
| `PageVacuum.MoveTop` | src/storage/on_disk/page/page_format.cpp:339-344 | one round keeps the compaction invariant on directory and bytes |
| `PageVacuum.QueueBelowTop` | src/storage/on_disk/page/page_format.cpp:337-345 | every waiting record ends below the top one, and the top one does not move down |
| `PageVacuum.PlaceTop` | src/storage/on_disk/page/page_format.cpp:342-344 | placing the top record keeps placed extents disjoint and the free end exact |
| `PageVacuum.MoveIsSafe` | src/storage/on_disk/page/page_format.cpp:343-343 | the overlapping move damages no other live record, moved or waiting |
| `PageSpace.RecordsFit` | src/storage/on_disk/page/page_format.cpp:169-222 | on every well-formed page the live bytes fit between free end and limit |
| `PageSpace.VacuumIsOptimal` | src/storage/on_disk/page/page_format.cpp:306-347 | no well-formed page with the same records has a higher free end than the vacuumed one |
| `PageSpace.VacuumBreaksHeapPages` | src/storage/on_disk/page/page_format.cpp:337-346 | compacting from the end of the page leaves no heap page well-formed, since the last 8 bytes are links |
| `PageSort.ShiftSlotsLeft` | src/optimizer/external_sort.cpp:99-124 | the sequence of live entries is preserved; slots [0, tuple count) are live and the rest deleted, emptied where a record moved away; only directory entries change |
| `PageSort.NextLive` | src/optimizer/external_sort.cpp:110-111 | the inner scan stops at a live slot inside the directory |
| `PageSort.ShiftKeepsOrder` | src/optimizer/external_sort.cpp:113-119 | moving an entry over deleted ones keeps its place among the live entries |
| `PageSort.SwapSlots` | src/optimizer/external_sort.cpp:83-97 | the two entries are exchanged, the page stays well-formed, nothing else changes |
| `PageSort.Partition` | src/optimizer/external_sort.cpp:49-77 | the range is permuted so that entries before the pivot precede it and the others follow, for any comparator |
| `PageSort.SkipBefore` | src/optimizer/external_sort.cpp:55-58 | skips only entries that compare before the pivot |
| `PageSort.SkipNotBefore` | src/optimizer/external_sort.cpp:65-67 | stops at the next entry that compares before the pivot, or at the pivot |
| `PageSort.SortRange` | src/optimizer/external_sort.cpp:43-81 | terminates and permutes the range for every comparator; the range is ordered for every irreflexive, transitive one |
| `PageSort.SortedSidesAreSorted` | src/optimizer/external_sort.cpp:76-80 | two sorted sides around the pivot make a sorted range |
| `PageSort.SortPageInPlace` | src/optimizer/external_sort.cpp:37-41 | live slots become a prefix where no later record compares before an earlier one; the multiset of record byte strings is unchanged; record bytes are not touched |
| `PageRuns.Perform` | src/storage/on_disk/page/page_format.cpp:88-347 | each page operation is a step of a machine over record bytes, deleted extents, slot count and free space, which also says exactly when an allocation is refused |
| `PageRuns.PerformAll` | src/storage/on_disk/page/page_format.cpp:88-347 | every sequence of page operations keeps the page well-formed and is a run of the machine; the header count is the number of records |
| `PageRuns.RecordSurvives` | src/storage/on_disk/page/page_format.cpp:169-347 | in every run a record keeps id and bytes until it is deleted, overwritten or rearranged |
| `PageRuns.DeletedSpaceIsReusable` | src/storage/on_disk/page/page_format.cpp:191-228 | after a deletion a record of that size can always be placed |
| `PageRuns.RearrangingConserves` | src/optimizer/external_sort.cpp:37-124 | any run of vacuum, swap, shift and sort keeps the multiset of records |
| `PageRuns.ShiftIsStep` | src/optimizer/external_sort.cpp:99-124 | after a shift the records are numbered 0, 1, ... in their previous slot order |
| `PageRuns.SortIsStep` | src/optimizer/external_sort.cpp:37-41 | after a sort the records are numbered from 0 in order |
| `PageRuns.TuplesAreRecords` | src/storage/on_disk/page/page_format.cpp:68-71 | on every well-formed page the header count is the size of the map |
| `HeapPage.InitPage` | src/storage/on_disk/heap/heap_page.cpp:8-15 | an empty well-formed page with record limit 4088 and null links |
| `HeapPage.SetNextPage` | src/storage/on_disk/heap/heap_page.cpp:17-23 | the next link reads back; previous link, layout and records are kept |
| `HeapPage.SetPrevPage` | src/storage/on_disk/heap/heap_page.cpp:25-31 | the previous link reads back; next link, layout and records are kept |
| `HeapPage.LinksAreOutside` | src/storage/on_disk/heap/heap_page.cpp:12-12 | bytes behind the record limit play no part in the slotted page |
| `HeapPage.NullIffAllOnes` | include/storage/on_disk/constants.h:22-22 | a link is null exactly if its four bytes, which lie behind the records, are all 255 |
| `Checksum.Checksum64` | src/storage/on_disk/page/checksum.cpp:9-26 | the loop computes the exclusive or of the 512 little-endian words, in 64 bits |
| `Checksum.XorBits` | src/storage/on_disk/page/checksum.cpp:9-26 | bit i of the exclusive or is set exactly if bit i of the operands differs |
| `Checksum.BitsDetermine` | src/storage/on_disk/page/checksum.cpp:9-26 | numbers with the same bits are the same |
| `Checksum.UpdateChecksum` | src/storage/on_disk/page/page_format.cpp:101-106 | afterwards every page is valid, and all but the first word is unchanged |
| `Checksum.UndetectedIff` | src/storage/on_disk/page/page_format.cpp:96-99 | a change of a valid page stays valid exactly if the exclusive or of its word differences is zero |
| `Checksum.OneWordChangeIsDetected` | src/storage/on_disk/page/page_format.cpp:96-99 | a change confined to one word stays valid only if it changes nothing |
| `DiskFile.OffsetsOverlapIff` | src/storage/on_disk/disk/disk_manager.cpp:188-191 | with the 32-bit product two pages share bytes exactly if they are congruent modulo 2^20 |
| `DiskFile.OffsetsInFile` | src/storage/on_disk/disk/disk_manager.cpp:188-191 | up to 2^20 pages lie at 4096 times their id and have disjoint ranges inside the file |
| `DiskFile.FullIffAllUsed` | src/storage/on_disk/disk/disk_manager.cpp:166-184 | a file that doubles stays within 2^20 pages exactly as long as fewer than 2^20 are in use |
| `DiskFile.CapacityIsBounded` | src/storage/on_disk/disk/disk_manager.cpp:166-184 | a capacity reached by doubling is allowed exactly if 32 bits can hold it |
| `DiskFile.PageAllocator.AllocatePage` | src/storage/on_disk/disk/disk_manager.cpp:155-186 | returns a page that was not in use and adds exactly it; doubling touches no page in use |
| `DiskFile.PageAllocator.DeletePage` | src/storage/on_disk/disk/disk_manager.cpp:64-77 | moves exactly one page from in use to free |
| `DiskTable.RowIdRoundTrip` | include/storage/on_disk/types.h:51-63 | page and slot are recovered from a row id |
| `DiskTable.RowIdParts` | include/storage/on_disk/types.h:51-63 | page and slot are exactly the lower 48 bits of a row id |
| `DiskTable.ChainIsUnique` | src/storage/on_disk/table/disk_table.cpp:31-54 | following the links from the root visits one sequence of distinct pages and ends |
| `DiskTable.HeapTable.constructor` | src/storage/on_disk/table/disk_table_factory.cpp:37-52 | a new table has an empty list, no rows and no issued ids |
| `DiskTable.HeapTable.TryInsert` | src/storage/on_disk/table/disk_table.cpp:42-50 | the row goes on this page exactly if it has room |
| `DiskTable.HeapTable.InsertOnNewPage` | src/storage/on_disk/table/disk_table.cpp:56-86 | a fresh page with the row is appended to the list |
| `DiskTable.HeapTable.InsertRow` | src/storage/on_disk/table/disk_table.cpp:29-87 | succeeds exactly if the row has at most 4068 bytes and a listed page has room or the file can grow; then one row is added under an id never issued before, no other row changes, the list stays acyclic and duplicate-free, and it grows only when every page is full |
| `DiskTable.HeapTable.DeleteRow` | src/storage/on_disk/table/disk_table.cpp:95-103 | for every issued id: removes exactly that row if it exists, its id staying issued; the table stays intact if and only if it does |
| `DiskTable.HeapTable.UpdateRow` | src/storage/on_disk/table/disk_table.cpp:89-93 | the row moves to a fresh id and no other row changes, exactly if the new row can be inserted |
| `DiskTable.RoomForAPage` | src/storage/on_disk/table/disk_table.cpp:56-59 | a table with fewer than 2^20 - 1 data pages can always grow |
| `DiskTable.AppendKeepsList` | src/storage/on_disk/table/disk_table.cpp:73-84 | linking a fresh page behind the last one, or from the root, keeps the list well-formed |
| `TableScan.ScanSound` | src/storage/on_disk/table/disk_table_iterator.cpp:79-114 | a scan yields only live rows at or behind its start |
| `TableScan.ScanReaches` | src/storage/on_disk/table/disk_table_iterator.cpp:79-114 | a scan reaches every live slot at or behind its start |
| `TableScan.ScanComplete` | src/storage/on_disk/table/disk_table_iterator.cpp:79-114 | a scan yields every live row at or behind its start |
| `TableScan.ScanDistinct` | src/storage/on_disk/table/disk_table_iterator.cpp:79-114 | a scan yields no row twice |
| `TableScan.Cursor.constructor` | src/storage/on_disk/table/disk_table_iterator.cpp:15-37 | a new cursor has the whole table in front of it |
| `TableScan.FindNext` | src/storage/on_disk/table/disk_table_iterator.cpp:79-114 | advancing terminates at a live row or the end and skips nothing but dead slots |
| `TableScan.Cursor.Next` | src/storage/on_disk/table/disk_table_iterator.cpp:49-54 | drops exactly the current row |
| `TableScan.Cursor.Current` | src/storage/on_disk/table/disk_table_iterator.cpp:39-47 | the first of the rows still to come |
| `TableScan.Cursor.Seek` | src/storage/on_disk/table/disk_table_iterator.cpp:61-77 | for every id on a page of the file: accepts exactly live rows and continues the scan there; a refusal changes nothing |
| `TableScan.ScanIsFull` | src/storage/on_disk/table/disk_table_iterator.cpp:15-114 | a full scan lists every row exactly once with its bytes |
| `EphemeralTable.MemoryTable.GenerateRowId` | src/storage/ephemeral/ephemeral_table.cpp:12-24 | the n-th id is n modulo 2^48 |
| `EphemeralTable.MemoryTable.InsertRow` | src/storage/ephemeral/ephemeral_table.cpp:31-40 | adds the row under that id unless the id is taken, which cannot happen in the first 2^48 inserts |
| `EphemeralTable.MemoryTable.UpdateRow` | src/storage/ephemeral/ephemeral_table.cpp:42-46 | refuses a missing row and changes nothing, otherwise moves the row to the next id |
| `EphemeralTable.MemoryTable.DeleteRow` | src/storage/ephemeral/ephemeral_table.cpp:48-56 | removes exactly that row, or reports that it does not exist |
| `EphemeralTable.MemoryCursor.Next` | src/storage/ephemeral/ephemeral_table_iterator.cpp:19-24 | drops exactly the current row |
| `EphemeralTable.MemoryCursor.Seek` | src/storage/ephemeral/ephemeral_table_iterator.cpp:31-37 | accepts exactly existing rows and continues the scan there; a refusal leaves the cursor at the end |
| `EphemeralTable.RowsAreScan` | src/storage/ephemeral/ephemeral_table_iterator.cpp:5-47 | a scan lists every row exactly once, in ascending order of ids |
| `TableStorage.Insert` | src/storage/on_disk/table/disk_table.cpp:29-87 | on either engine a fresh row, or nothing exactly if it does not fit on a disk page |
| `TableStorage.Delete` | src/storage/ephemeral/ephemeral_table.cpp:48-56 | on either engine exactly one row less |
| `TableStorage.ScanAll` | include/table/table_cursor.h:24-46 | on either engine a loop over the cursor terminates and reads every row exactly once |
| `TableHandle.InsertRow` | src/table/table_handle.cpp:14-34 | stores exactly rows that fit the schema, can be encoded and fit on a page, as their encoding |
| `TableHandle.ScanListsTyped` | src/table/table_handle.cpp:47-50 | a scan of encoded rows reads each typed row exactly once |
| `TableSimulation.UpdateBoth` | src/storage/on_disk/table/disk_table.cpp:89-93 | the updates of both tables keep them related, and both refuse a missing row |
| `TableSimulation.RunBoth` | src/storage/on_disk/table/disk_table.cpp:29-103 | after any operation sequence, up to the first row that the disk table cannot take, both tables hold the rows of one model, the disk table under a bijection of row ids; fewer than 2^20 - 1 operations with rows of at most 4068 bytes all succeed |
| `TableSimulation.ScansAgree` | src/storage/on_disk/table/disk_table_iterator.cpp:15-114 | full scans of related tables list the same rows up to the bijection, so the same multiset of bytes |
| `TableSimulation.RunAndScan` | src/storage/ephemeral/ephemeral_table.cpp:12-56 | the same operations and a scan of each table give equal multisets of rows |
| `LruKReplacer.Replacer.RegisterFrame` | src/storage/on_disk/buffer_manager/lru_k_replacer.cpp:9-13 | a new frame is evictable and unused; the clock invariant is kept |
| `LruKReplacer.Replacer.EvictFrame` | src/storage/on_disk/buffer_manager/lru_k_replacer.cpp:15-61 | for every k and every iteration order: nothing exactly if no frame is evictable, otherwise an unused evictable frame or the minimum of the eviction order |
| `LruKReplacer.Replacer.RecordAccess` | src/storage/on_disk/buffer_manager/lru_k_replacer.cpp:63-74 | keeps histories ascending, at most k long, and disjoint across frames |
| `LruKReplacer.Replacer.SetEvictable` | src/storage/on_disk/buffer_manager/lru_k_replacer.cpp:76-88 | sets one flag and moves the 64-bit counter whether or not the flag changed |
| `LruKReplacer.CounterMovesByOne` | src/storage/on_disk/buffer_manager/lru_k_replacer.cpp:76-88 | setting a flag moves the counter exactly one up or one down, wrapping only at the ends of 64 bits; the two moves undo each other |
| `LruKReplacer.CountedByAdds` | src/storage/on_disk/buffer_manager/lru_k_replacer.cpp:9-13 | n registrations add n while the sum stays below 2^64, and n modulo 2^64 always |
| `LruKReplacer.LatestAccessesKept` | src/storage/on_disk/buffer_manager/lru_k_replacer.cpp:63-74 | after an access a history is the latest times, the new one last, and k of them as soon as there are as many |
| `LruKReplacer.OlderMeans` | src/storage/on_disk/buffer_manager/lru_k_replacer.cpp:41-52 | a short history goes before a full one; of two short ones the one with an access before all of the other; of two full ones the one without an access after all of the other |
| `LruKReplacer.OlderIsTotal` | src/storage/on_disk/buffer_manager/lru_k_replacer.cpp:41-52 | two used frames are ordered one way only |
| `LruKReplacer.VictimIsUnique` | src/storage/on_disk/buffer_manager/lru_k_replacer.cpp:24-53 | with all evictable frames used, the choice does not depend on iteration order |
| `LruKReplacer.FollowsPolicyIff` | include/storage/on_disk/buffer_manager/lru_k_replacer.h:18-26 | the code's order is the documented one exactly for k = 1 |
| `LruKReplacer.ZeroKeepsNoHistory` | src/storage/on_disk/buffer_manager/page_buffer_manager.cpp:17-18 | with k = 0 every evictable frame is a victim |
| `LruKReplacer.CountStaysExactIff` | src/storage/on_disk/buffer_manager/lru_k_replacer.cpp:81-87 | the counter stays the number of evictable frames exactly if the flag changes |
| `BufferPool.InvalidIsGreatest` | src/storage/on_disk/buffer_manager/frame.cpp:7-12 | the page id of a frame that was never loaded is the greatest pair of 32-bit ids |
| `BufferPool.Pool.constructor` | src/storage/on_disk/buffer_manager/page_buffer_manager.cpp:17-28 | an empty pool stands for the disk it is given |
| `BufferPool.Pool.FlushPage` | src/storage/on_disk/buffer_manager/page_buffer_manager.cpp:151-161 | writes exactly one cached page; contents are unchanged; fails exactly for an uncached page or a refused write |
| `BufferPool.Pool.LoadPage` | src/storage/on_disk/buffer_manager/page_buffer_manager.cpp:113-140 | no page content changes, only current contents reach the disk, no pinned frame is reassigned, and it fails only if all frames are pinned or a write-back is refused |
| `BufferPool.Pool.GetPage` | src/storage/on_disk/buffer_manager/page_buffer_manager.cpp:83-96 | a new handle to a frame that holds exactly this page's current content |
| `BufferPool.Pool.GetPageIfFrameAvailable` | src/storage/on_disk/buffer_manager/page_buffer_manager.cpp:98-111 | the same, or nothing at once when the drifting counter is zero |
| `BufferPool.Pool.PinAndReturnPage` | src/storage/on_disk/buffer_manager/page_buffer_manager.cpp:186-194 | one more handle, pins equal handles, evictable exactly without pins |
| `BufferPool.Pool.RemoveAccessor` | src/storage/on_disk/buffer_manager/page_buffer_manager.cpp:163-176 | one handle less; both assertions of the code hold |
| `BufferPool.Pool.GetView` | src/storage/on_disk/buffer_manager/page.cpp:75-78 | a handle shows the page's current content |
| `BufferPool.Pool.GetMutView` | src/storage/on_disk/buffer_manager/page.cpp:67-73 | marks the frame dirty and changes no content |
| `BufferPool.Pool.Write` | src/storage/on_disk/buffer_manager/page.cpp:67-73 | changes the content of that page and no other |
| `BufferPool.Pool.FileHasPinnedPages` | src/storage/on_disk/buffer_manager/page_buffer_manager.cpp:142-149 | answers exactly whether a cached page of the file is pinned |
| `BufferPool.Pool.DeleteFile` | src/storage/on_disk/buffer_manager/page_buffer_manager.cpp:52-76 | refused exactly if a page is pinned; otherwise the file's pages disappear and every other page keeps its content |
| `BufferPool.Pool.FlushAll` | src/storage/on_disk/buffer_manager/page_buffer_manager.cpp:30-35 | the destructor writes all cached pages but the refused ones; the disk ends up with the contents exactly if each refused page already had its bytes there |
| `BufferPool.LoadStep` | src/storage/on_disk/buffer_manager/page_buffer_manager.cpp:129-138 | replacing an unpinned, flushed frame keeps the pool invariant and all contents |
| `BufferPool.UnpinStep` | src/storage/on_disk/buffer_manager/page.cpp:6-10 | the frame of a live handle is mapped to its page and has a positive pin count |
| `BufferPool.FailedReadKeepsPoolIff` | src/storage/on_disk/buffer_manager/page_buffer_manager.cpp:129-132 | a failed read keeps the pool invariant exactly if the victim frame held no page |
| `BufferPool.FailedReadUnmapsPinnedPage` | src/storage/on_disk/buffer_manager/page_buffer_manager.cpp:129-138 | how the stale page id of a failed read later unmaps a pinned page |
| `PoolRuns.NoFrameLeftIff` | src/storage/on_disk/buffer_manager/page_buffer_manager.cpp:163-194 | every frame is pinned exactly when as many different pages are open as there are frames |
| `PoolRuns.Apply` | src/storage/on_disk/buffer_manager/page_buffer_manager.cpp:52-194 | one pool operation is one step of a plain map with a list of open pages, as clients observe it; opening is refused only for a page that does not exist, without a frame left, on a refused write-back or, without waiting, when the counter is zero |
| `PoolRuns.Execute` | src/storage/on_disk/buffer_manager/page_buffer_manager.cpp:17-194 | every run, for every pool size, every k and any write failures, is observed as a run of the plain map; shutdown leaves the final contents on disk, and a page whose last write is refused keeps an earlier content |
| `PoolCounter.OpenPagesOfRun` | src/storage/on_disk/buffer_manager/page_buffer_manager.cpp:163-194 | in every run the successful opens are the open pages, plus the opens of pages that were open already, plus the last closes |
| `PoolCounter.CounterOfRun` | src/storage/on_disk/buffer_manager/lru_k_replacer.cpp:9-13 | in every run the counter is the frames, minus successful opens, plus last closes, plus the cached pages of removed files, modulo 2^64 |
| `PoolCounter.CounterIsExactIff` | src/storage/on_disk/buffer_manager/lru_k_replacer.cpp:76-93 | the counter is the number of frames without an open page exactly if there have been as many opens of open pages as removals of cached pages |
| `PoolCounter.CounterIsZeroIff` | src/storage/on_disk/buffer_manager/page_buffer_manager.cpp:98-105 | the counter is zero, so that a request for a page that is not cached is given up at once, exactly when opens equal frames, last closes and removals of cached pages together |
| `PoolCounter.TryGetIsGranted` | src/storage/on_disk/buffer_manager/page_buffer_manager.cpp:98-111 | a request that does not wait, for a page that exists and with writes accepted, is granted at any point of a run at which the opens are fewer than frames and last closes together |
| `PoolCounter.GetIsGrantedIff` | src/storage/on_disk/buffer_manager/page_buffer_manager.cpp:83-96 | at every point of a run a request that waits, for a page that exists and with writes accepted, is granted exactly if the page is open already or a frame has no open page |
| `PoolCounter.FirstTryGetIsGranted` | src/storage/on_disk/buffer_manager/page_buffer_manager.cpp:13-28 | a new pool with frames never refuses its first such request |
| `PoolCounter.RefusedThoughFree` | src/storage/on_disk/buffer_manager/page_buffer_manager.cpp:98-105 | the counterexample without that condition: a page opened and closed twice in a pool of one frame leaves the frame free, and the next page is refused |
| `SharedSpinlock.ThreadStepIsSafe` | src/core/shared_spinlock.cpp:7-65 | every atomic step of every operation, with stale values and spurious failures, changes word and holders together |
| `SharedSpinlock.RunsAreSafe` | src/core/shared_spinlock.cpp:7-65 | in every reachable state the word is -1 for exactly one writer and no readers, otherwise the number of readers |
| `SharedSpinlock.MutualExclusion` | src/core/shared_spinlock.cpp:7-65 | a writer is alone |
| `SharedSpinlock.StateIsDocumented` | src/core/shared_spinlock.cpp:67-80 | the word is never below -1 and tells exactly whether a writer or readers hold the lock |
| `SharedSpinlock.NoOverflow` | src/core/shared_spinlock.cpp:30-60 | with fewer than 2^31 threads the increment stays in 32 bits |
| `SharedSpinlock.FreeLockCanBeTaken` | src/core/shared_spinlock.cpp:15-60 | every operation can take a lock that is free for it, the two that only try included |
| `SharedSpinlock.WriterOutcomes` | src/core/shared_spinlock.cpp:7-28 | the exact outcomes of each step of a writer: a try takes the lock exactly if the word is zero, a wait takes it only then and never gives up, unlocking stores zero |
| `SharedSpinlock.ReaderOutcomes` | src/core/shared_spinlock.cpp:30-65 | the exact outcomes of each step of a reader: a try gives up exactly on a negative value, a wait never, both succeed only if the word still is the value seen, and otherwise see its new value |
| `SharedSpinlock.SeenDuringCall` | src/core/shared_spinlock.cpp:30-43 | in every run the value that a shared try compares with is one the word had during the call |
| `SharedSpinlock.TrySharedFailsOnlyToAWriter` | src/core/shared_spinlock.cpp:30-43 | in every run a shared try fails only if a writer held the lock at some point of the call |
| `SharedSpinlock.TryLockSucceedsIffFree` | src/core/shared_spinlock.cpp:7-13 | in every run an exclusive try succeeds exactly if nobody holds the lock at its comparison |
| `SharedSpinlock.EveryThreadCanStep` | src/core/shared_spinlock.cpp:7-65 | in every state each thread can make a step |
| `SharedSpinlock.AnyCallCanStart` | src/core/shared_spinlock.cpp:7-65 | a thread outside the lock can start each of the four operations |
| `RowCodec.ValueRoundTrip` | src/common/datatypes.cpp:20-103 | every encodable value decodes to itself with its size, whatever bytes follow |
| `RowCodec.DecodedIsEncoded` | src/common/datatypes.cpp:20-103 | bytes decode exactly if there are as many as their size says, and then to a value of that type in range whose encoding are these bytes |
| `RowCodec.OffsetsArePrefixSums` | src/core/row_reader.cpp:22-31 | offsets in a built row are the sums of the encoded sizes in front |
| `RowCodec.RowRoundTrip` | include/core/row_reader.h:40-53 | reading position i of a built row gives value i |
| `RowCodec.CalculateOffset` | src/core/row_reader.cpp:22-31 | the loop computes the offset, or an error if the row ends too early |
| `RowCodec.RowBuilder.Push` | include/core/row_builder.h:36-46 | appends the encoding, or fails for an over-long string and leaves the row as it was |
| `RowCodec.RowBuilder.AllocateSpace` | src/core/row_builder.cpp:64-81 | grows the allocation and keeps the row |
| `RowCodec.BuildRow` | src/table/table_handle.cpp:14-28 | succeeds exactly for values that fit the schema and can be encoded; the row is their encoding |
| `RowCodec.Project` | src/optimizer/operators/projection_iterator.cpp:32-52 | the loop copies the selected fields, or fails if one cannot be located |
| `RowCodec.ProjectIsSelect` | src/optimizer/operators/projection_iterator.cpp:32-52 | projecting the bytes is encoding the selected values |
| `RowCodec.ProjectedFieldReads` | src/optimizer/operators/projection_iterator.cpp:9-12 | field j of a projected row under the output schema reads as the j-th selected field of the original |
| `Doubles.FieldsMean` | include/common/datatypes.h:122-137 | the number that sign, exponent and fraction of the eight bytes stand for, and exactly which are not a number (section 3.4 of IEEE 754) |
| `Doubles.AbsoluteIsMonotonic` | include/common/datatypes.h:120-137 | magnitude bits of doubles are ordered like the numbers they stand for, gradual underflow and infinity included |
| `Doubles.SameNumberIff` | include/common/datatypes.h:120-137 | two doubles are the same number exactly if they have the same bits or are the two zeros |
| `Literals.TextRoundTrip` | src/common/datatypes.cpp:41-51 | every integer, and every string that can be encoded, reads back from its text |
| `Literals.TextIsAscii` | src/common/datatypes.cpp:41-51 | digits and minus are ASCII |
| `Literals.UnsignedHasNoMinus` | src/common/datatypes.cpp:41-51 | text with a minus never reads as an unsigned number |
| `Literals.ParseIntIff` | src/common/datatypes.cpp:41-51 | text reads as an integer exactly if it is its numeral, zeros in front aside, or for signed types a minus and a numeral |
| `Literals.ParsedIsStorable` | src/common/datatypes.cpp:181-188 | what is read is in the range of the type asked for and can be encoded |
| `Conditions.ColumnIndex` | src/optimizer/operators/selection_iterator.cpp:82-89 | the first column of that name, or none if there is none |
| `Conditions.EvalAgrees` | src/optimizer/operators/selection_iterator.cpp:36-132 | evaluating a condition on the bytes of a row is evaluating it on the typed values, errors included |
| `Conditions.ShortCircuitIsSound` | src/optimizer/operators/selection_iterator.cpp:50-65 | short-circuit evaluation never contradicts the order-independent three-valued semantics |
| `Conditions.KleeneIsForced` | src/optimizer/operators/selection_iterator.cpp:50-65 | the order-independent semantics gives a truth value exactly if it is the same whatever the failing comparisons count as |
| `Conditions.FailsIffReachedFails` | src/optimizer/operators/selection_iterator.cpp:50-65 | evaluation fails exactly if the last comparison it reaches from left to right fails; the others it reaches have a truth value |
| `Conditions.LexTotal` | src/optimizer/operators/selection_iterator.cpp:105-132 | the string order is strict and total, so the six operators are consistent |
| `Conditions.NumbersCompare` | src/optimizer/operators/selection_iterator.cpp:105-132 | on each integer type the six operators are =, ≠, <, >, ≤ and ≥ of the numbers, and on doubles too unless one is not a number, which is only unequal |
| `Conditions.LexLessIff` | src/optimizer/operators/selection_iterator.cpp:119-120 | a string is less exactly if, behind a common front, it ends or has the smaller byte |
| `Conditions.StringsCompare` | src/optimizer/operators/selection_iterator.cpp:105-132 | the six operators on strings are equality and this order |
| `Conditions.ComparableIff` | src/optimizer/operators/selection_iterator.cpp:105-132 | comparing fails exactly for values of different types |
| `Conditions.NegationIff` | src/optimizer/operators/selection_iterator.cpp:105-132 | = and ≠, < and ≥, > and ≤ answer opposite exactly if neither value is a double that is not a number |
| `Conditions.LiteralBesideColumn` | src/optimizer/operators/selection_iterator.cpp:67-80 | a literal on either side is read as the type of the column beside it and keeps its side |
| `Conditions.SameKindOperands` | src/optimizer/operators/selection_iterator.cpp:67-103 | two literals are compared as strings, two columns as they are |
| `Conditions.IntegerVerdict` | src/optimizer/operators/selection_iterator.cpp:67-132 | comparing an integer column with an integer literal, on either side, is the relation of the two numbers |
| `QueryPipeline.FileScan.Next` | src/optimizer/operators/file_scan_iterator.cpp:9-24 | moves the table cursor and drops exactly the current row |
| `QueryPipeline.Selection.FindNextMatch` | src/optimizer/operators/selection_iterator.cpp:24-34 | finds the next matching row and loses none, or fails exactly when the filter of the rest fails |
| `QueryPipeline.Selection.Next` | src/optimizer/operators/selection_iterator.cpp:17-22 | drops exactly the current matching row |
| `QueryPipeline.Projection.constructor` | src/optimizer/operators/projection_iterator.cpp:4-14 | the output schema is that of the selected fields |
| `QueryPipeline.Projection.LoadCurrent` | src/optimizer/operators/projection_iterator.cpp:23-30 | holds the projection of the input's current row |
| `QueryPipeline.Projection.Next` | src/optimizer/operators/projection_iterator.cpp:16-21 | drops exactly the current projected row |
| `QueryPipeline.ResolveColumns` | src/optimizer/optimizer.cpp:43-61 | the positions of the first columns with the given names, or a failure if one does not exist |
| `QueryPipeline.ResultSchema` | src/executor/executor.cpp:48-62 | the executor's schema is the projection's output schema |
| `QueryPipeline.ExecuteSelect` | src/executor/executor.cpp:30-74 | plan assembly and draining, over a cursor of a table of either engine, compute the filter and projection of its rows in scan order, with exactly its failures |
| `QueryMeaning.FilterMeaning` | src/optimizer/operators/selection_iterator.cpp:24-34 | filtering bytes is filtering typed rows, and fails exactly if the condition is undefined on some row |
| `QueryMeaning.ProjectMeaning` | src/optimizer/operators/projection_iterator.cpp:32-52 | projecting bytes is selecting typed fields of every row |
| `QueryMeaning.SelectMeaning` | src/optimizer/optimizer.cpp:13-65 | a SELECT over stored rows equals its relational meaning, result schema and failure conditions included |
| `QueryMeaning.SelectByInteger` | src/optimizer/operators/selection_iterator.cpp:24-132 | a SELECT by a comparison of an integer column with an integer literal never fails and yields, in order, exactly the rows whose number is in that relation |
| `QueryRuns.Build` | src/table/table_handle.cpp:30-40 | a statement stores the encoding of its typed row, or is refused before it reaches the table |
| `QueryRuns.EncodeRowInjective` | src/table/table_handle.cpp:14-28 | rows of one schema with the same bytes are the same |
| `QueryRuns.RunThenSelect` | src/executor/executor.cpp:30-101 | after any typed inserts, updates and deletes a SELECT answers its relational meaning on the rows that are left, in insertion order in memory and in some order on disk |
| `Catalog.TableRowBytes` | src/catalog/catalog.cpp:91-95 | a table row can be encoded exactly for a name of at most 65535 bytes and takes the name and 10 bytes |
| `Catalog.ColumnRowBytes` | src/catalog/catalog.cpp:99-104 | a column row can be encoded exactly for names of at most 65535 bytes and takes both names and 12 bytes |
| `Catalog.LimitsAreExact` | src/catalog/catalog.cpp:91-105 | a number can be stored in a catalog row exactly if it is a 32-bit integer, a name exactly if it can be encoded |
| `Catalog.TypeIdIsPlace` | include/common/datatypes.h:140-185 | the id of a type is its place in the list of types, so ids are distinct |
| `Catalog.KnownTypeIff` | include/common/datatypes.h:189-192 | an id is known exactly if it is the id of a type |
| `Catalog.TypedIff` | include/common/datatypes.h:189-192 | a schema describes columns of types that exist exactly if all its ids are known |
| `Catalog.BootstrapContents` | src/catalog/catalog.cpp:9-20 | what a new catalog knows: the names of its two tables and their columns, strings with id 1 and integers with id 0 |
| `Catalog.CatalogRowsAreTyped` | src/catalog/catalog.cpp:9-20 | each value of a stored catalog row has the type that the cached id of its column stands for |
| `Catalog.Reload` | src/catalog/catalog.cpp:55-84 | rebuilding the cache from scans that read the agreeing rows in any order gives the cache back, and fails exactly for an unknown type |
| `Catalog.LoadTables` | src/catalog/catalog.cpp:55-68 | one entry per table row, with a blank schema of the right length |
| `Catalog.LoadColumns` | src/catalog/catalog.cpp:70-84 | every column is filled in, or an unknown type is reported |
| `Catalog.AddRows` | src/catalog/catalog.cpp:91-106 | stores the table row and then the column rows up to the first failure; the rows agree with the enlarged cache exactly if all are stored |
| `Catalog.AddedOnDiskIff` | src/catalog/catalog.cpp:91-105 | on disk an addition stores all rows exactly if the name has at most 4058 bytes and each column name with it at most 4056 |
| `Catalog.AddedInMemoryIff` | src/catalog/catalog.cpp:91-105 | in memory exactly if no name exceeds 65535 bytes |
| `Catalog.FitsOnDiskIff` | src/catalog/catalog.cpp:91-105 | the additions that a disk run may contain are exactly those stored in full |
| `Catalog.RemoveRows` | src/catalog/catalog.cpp:119-144 | deletes exactly the column rows and the row of a table, and the rest agrees with the reduced cache |
| `Catalog.CollectColumns` | src/catalog/catalog.cpp:122-127 | the first scan collects exactly the ids of the table's column rows |
| `CatalogRows.AddAgrees` | src/catalog/catalog.cpp:86-112 | the rows of a new table make the enlarged cache agree |
| `CatalogRows.RemoveAgrees` | src/catalog/catalog.cpp:114-150 | without the rows of a table the reduced cache agrees |
| `CatalogRows.AllFilled` | src/catalog/catalog.cpp:70-84 | with every column row read, the loaded cache is the recorded one |
| `Catalog.NewCatalog` | src/catalog/catalog.cpp:22-53 | a new catalog describes its own two tables and agrees with their rows |
| `Catalog.RecordBothTables` | src/catalog/catalog.cpp:173-185 | the table of tables records both catalog tables |
| `Catalog.RecordBothSchemas` | src/catalog/catalog.cpp:187-210 | the table of columns records the columns of both |
| `Catalog.SchemaCatalog.Open` | src/catalog/catalog.cpp:22-27 | the catalog of a used database is what its stored rows record |
| `Catalog.SchemaCatalog.AddTable` | src/catalog/catalog.cpp:86-112 | refuses a taken name; otherwise adds exactly one table and keeps agreement if all rows are stored; a column row that is not stored leaves a table row that the cache does not have |
| `Catalog.SchemaCatalog.RemoveTable` | src/catalog/catalog.cpp:114-150 | removes exactly one table and keeps agreement |
| `Catalog.TypedRunIsKnown` | src/catalog/catalog.cpp:70-84 | after any operations that add only tables with columns of existing types, all types are known |
| `Catalog.RunThenReload` | src/catalog/catalog.cpp:22-150 | after any sequence of additions and removals, on tables of either engine, the cache is the map they describe, and a reload from the stored bytes gives it back exactly if all types are known, always if only existing types are used |
| `Catalog.RunOnDisk` | src/table/table_manager.cpp:6-24 | the same for the default engine, with names that fit on its pages |

## Left out

- Real file I/O, file handles and random file ids: the disk is a map from page id to bytes, and a flag says whether a write is accepted.
- Condition-variable waiting, timeouts and liveness of `GetPage` and `DeleteFile`: safety only; the wait of `GetPage` depends on the drifting counter.
- Pool runs in which a page read fails or a deleted file id is used again: covered only by `BufferPool.FailedReadKeepsPoolIff` and `BufferPool.FailedReadUnmapsPinnedPage`.
- BufferPool.Pool.LoadPage: requires that the page can be read, and so do the two operations built on it; see the previous line.
- BufferPool.Pool.DeleteFile: an error of the file system while the file is deleted is not modelled.
- Move-assignment over a live page handle.
- C++ weak memory orders: each atomic operation is one sequentially consistent step.
- BufferPool.Pool.Write: replaces the whole page; a client's byte-wise writes through one mutable view are one such write.
- DiskTable.HeapTable.InsertRow: gives no result where the code has no defined behaviour, for a row above 4068 bytes (a missing slot is dereferenced) or a file that would exceed 2^20 pages (offsets wrap); what the code then does is not modelled.
- DiskTable.HeapTable.InsertOnNewPage: requires a row and a file for which that cannot happen, which `InsertRow` checks.
- DiskTable.HeapTable.DeleteRow: requires an issued id; for any other the code aborts, or treats an id of more than 48 bits like its low bits.
- DiskTable.HeapTable.UpdateRow: requires an existing row; for a dead one `DeleteRow` says what is lost.
- DiskFile.PageAllocator.AllocatePage: requires a file that does not double beyond 2^31 pages, where page ids and the loop over them wrap.
- PageFormat.AllocateSlot: the size is unbounded, so wrap-around of the sum with the entry size near 2^64 is not modelled.
- PageFormat.AllocateSlotOrReuseSlot: the same wrap-around in its fallback.
- The table works on the page contents that the pool presents; page locks and the pins taken during one table operation are not part of it.
- The list of full pages, which the code never fills: assumed empty.
- TableScan.Cursor.Seek: requires a page of the file; for any other the read aborts.
- Changes of a table while a cursor is open on it: a cursor sees the table as it was when it was opened; the repository's own loops collect first and change afterwards.
- Big-endian machines: integers are little-endian.
- Reading doubles from text: a parameter of the evaluation; a double is its eight bytes.
- Rows that are too short abort the program in the row reader; here they are an error result, and the SELECT fails.
- QueryRuns.RunThenSelect: the rows that are stored have at most 4068 bytes and there are fewer than 2^20 - 1 statements, so that every insertion succeeds on disk.
- Catalog.RunThenReload: the catalog tables have room for the rows, type ids and column counts fit in 32 bits, and an addition either stores all its rows or throws before the first one; `Catalog.SchemaCatalog.AddTable` says what the others leave behind.
- Catalog.RunOnDisk: carries the same conditions, with the room counted in rows.
- INSERT, CREATE and DROP statements as such, the mapping from table names to files, table factories and the table manager: thin dispatch over the parts above.
- The SQL lexer and parser, the shell, result printing and error messages.
- Sorting more than one page and merging runs: not implemented in the repository.
