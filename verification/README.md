# Verified models of Tor's low-level structures and of the correlation experiments

This project models the parts of the repository whose correctness is hardest to see from the code, and
proves what they are for. `dafny verify dfyconfig.toml` checks everything.

## What is modelled

**OpenBSD malloc** (`FreeRuns`, `PageDirectory`, `Directory`, `PageOwnership`, `FreeList`, `FreeListOps`,
`PageAllocator`, `PageHistory`, `ChunkBits`, `ChunkPages`, `ChunkLayer`, `ChunkAllocator`, `HeapThings`, `Heap`;
`Links` is what all linked structures share). The page layer keeps
an address-ordered, coalescing free list, and a sparse page directory with a two-place lookup cache. Addresses
are page numbers; the entries of a block are FIRST, FOLLOW and, with guard pages, another FIRST. The main
results: every call keeps the free list sorted, disjoint and coalesced, and keeps directory, free list and live
blocks in agreement; the "freelist is destroyed" branch is unreachable; the cache bound is exact; the free list
is determined by the set of free pages, so that freeing undoes allocating, and the order of frees does not
matter. The chunk layer cuts pages into chunks with a bitmap: a chunk handed out overlaps no other one and no
header, although part of the bitmap is never initialised. Both together are `malloc` and `free`: the chunk layer
takes its pages from the page layer and its pginfos from itself, no two live things share a byte, and each call
adds or takes away exactly one thing of the program's.

**The chained hash table** (`HashChains`, `HashPrimes`, `HashTable`, `HashRehash`, `HashOps`, `HashWalk`,
`HashIteration`, `HashRuns`). The bucket table is an array, the elements are linked in memory. Both ways to
rehash, the one inside the enlarged table too, are sequences of the same move and end with the same buckets.
Programs of any length get a map's answers, also with walks that remove elements; walks visit every element
once.

**Trunnel codecs** (`TrunnelBytes`, `TrunnelBuffers`, `LinkSpecifiers`, `ExtendCells`, `CertExtensions`,
`Ed25519Certs`, `CertsCells`, `HandshakeCells`, `Auth1Cells`, `Pwboxes`, `NetinfoCells`, `SendmeCells`,
`WireFormats`). Each format is a parser that reads at a position, and an encoder. The laws: verdicts are final,
strict prefixes are truncated, encodings are read back, consumed bytes are the encoding, and -2 comes exactly
below encoded_len. `WireFormats` says in numbers what the bytes are. The C functions are methods on a buffer and
an input, with their ptr, written, avail and remaining, and are proved to do what the grammar says.

**Smaller cores**. The tail queue with its pointers to pointers (`QueueLinks`, `TailQueues`); the annotator of
`#else` and `#endif` lines (`CommentedLines`, `IfNesting`, `AnnotateFile`,
`AnnotateText`); the derangement sampler
(`Derangements`); the packet-to-window cursor (`PacketWindows`); the vote pipeline (`VotePipeline`).

Loops and records in place are methods and class fields, as in the source. Linked structures are records in a
map from addresses that a class field holds, with a ghost sequence for the list they form.

## Where code and comments part

- `pdir_lookup` means to start from the nearer of its two cached pages. C groups the comparison so that it
  always starts from `last_dir` (`PageDirectory.PickLastAlways`). The answer is right either way.
- `free_pages` says that a run it trims keeps at least one page. It keeps none exactly when it was inserted
  into a full cache (`FreeRuns.EmptiedRunIsNew`), and the code handles that.
- `free_pages` checks that its pointer is to a FIRST page. Guard pages are FIRST, too, so that a pointer to one
  is taken for a block of one page (`PageOwnership.GuardFreed`).
- `malloc_make_chunks` says that it sets all valid bits in the bitmap. It never clears the others, which hold
  what was in memory (`ChunkPages.StaleBits`). Nothing depends on them (`ChunkBits.FindChunk`).
- `free_bytes` says "Insert in address order". The loop keeps that order only for an empty list, or for a page
  below the first one (`ChunkLayer.OrderKeptIff`).
- The loop of `HT_GROW` allows its index one step more than there are lengths. It reads behind the table
  exactly when the size asked for reaches the limit of the last length (`HashPrimes.ClimbBehindTableIff`).
- `HT_REPLACE` with an element that is in the table already counts it once more
  (`HashTableOps.HashTable.Replace`). An element that a walk removed still has its link, and breaks the table
  when it goes in again by `HT_REPLACE` and matches nothing (`HashTables.LinkMustBeNull`).
- `random_derangement` checks `v[0] != 0` after its loop, which always holds
  (`Derangements.FinalCheckRedundant`).
- The server's cursor in `parse_host.py` does not need windows of equal length. The client's fails on windows
  of which one lies in another, since packets of others move it on (`PacketWindows.WindowsSafeIff`).

## Model

| member | source | states |
|---|---|---|
| `FreeRuns.FirstFit` | tor/src/ext/OpenBSD_malloc_Linux.c:863-942 | The scan takes the first run that is large enough; all runs before it are smaller. |
| `FreeRuns.TakeFromSound` | tor/src/ext/OpenBSD_malloc_Linux.c:914-942 | Taking pages from a run keeps the list sorted and coalesced, and removes exactly the pages taken. |
| `FreeRuns.Spot` | tor/src/ext/OpenBSD_malloc_Linux.c:1520-1525 | Where the race ahead stops: everything before ends below the freed pages, and the run there does not, or is the last. |
| `FreeRuns.PlaceSound` | tor/src/ext/OpenBSD_malloc_Linux.c:1507-1573 | Freed pages that are on no run always find their place: the branch for a destroyed free list is unreachable, the list stays sorted, disjoint and coalesced, has exactly the old and the freed pages, and one run holds all of the freed ones. |
| `FreeRuns.CollapseHolds` | tor/src/ext/OpenBSD_malloc_Linux.c:1542-1554 | The branch that joins two runs over the freed pages between them. |
| `FreeRuns.WidenHolds` | tor/src/ext/OpenBSD_malloc_Linux.c:1542-1560 | The branches that append to the run before or prepend to the run behind. |
| `FreeRuns.InsertHolds` | tor/src/ext/OpenBSD_malloc_Linux.c:1507-1513 | The branches that insert a run of its own. |
| `FreeRuns.PlaceCached` | tor/src/ext/OpenBSD_malloc_Linux.c:1520-1568 | What cachesize counts in each branch: all pages but those of the run that grew, plus the size of a run that was swallowed. |
| `FreeRuns.TrimSound` | tor/src/ext/OpenBSD_malloc_Linux.c:1580-1592 | Giving back the end of a run keeps the list sorted and coalesced and gives up exactly that end. |
| `FreeRuns.SettledTotal` | tor/src/ext/OpenBSD_malloc_Linux.c:1581-1592 | The cache bound, exactly: malloc_cache - cachesize never wraps; nothing is given back while everything fits; else the list has the whole bound, less the size of a swallowed run, which was counted twice. |
| `FreeRuns.NewIff` | tor/src/ext/OpenBSD_malloc_Linux.c:1507-1572 | Freed pages become a run of their own exactly when no run ends where they begin or begins where they end. |
| `FreeRuns.EmptiedRunIsNew` | tor/src/ext/OpenBSD_malloc_Linux.c:1668-1711 | A run is trimmed to nothing exactly when the cache was full and the freed pages touched no run, and then the list is as before. (The comment at 1583-1586 says that this cannot happen.) |
| `FreeRuns.EmptiedRun` | tor/src/ext/OpenBSD_malloc_Linux.c:1668-1711 | An example of it. |
| `FreeRuns.NewRunRemoved` | tor/src/ext/OpenBSD_malloc_Linux.c:1701-1706 | Removing a newly inserted run again restores the list. |
| `FreeRuns.CanonicalIsUnique` | tor/src/ext/OpenBSD_malloc_Linux.c:1503-1573 | Two sorted, coalesced lists with the same pages are the same list: the free list is a function of the set of free pages, whatever the history. |
| `PageDirectory.PickLastAlways` | tor/src/ext/OpenBSD_malloc_Linux.c:311-319 | C groups the distance comparison so that last_dir is always picked, also when prev_dir is nearer. |
| `PageDirectory.OwnedUpdate` | tor/src/ext/OpenBSD_malloc_Linux.c:1609-1618 | How the number of owned entries changes with one entry. |
| `PageDirectory.Facts` | tor/src/ext/OpenBSD_malloc_Linux.c:612-614 | A linked directory page has its neighbours in order, and its dirnum is its index and its count, without the count spilling into the index. |
| `PageDirectory.EntryPlaces` | tor/src/ext/OpenBSD_malloc_Linux.c:827-833 | Entry k of directory page d is that of memory page 508 d + k and of no other; 508 pointers and 32 bytes of pdinfo make a page. |
| `PageDirectory.InsertedLinked` | tor/src/ext/OpenBSD_malloc_Linux.c:604-621 | A new directory page linked in behind its predecessor keeps the list doubly linked and strictly increasing with index 0 at its head. |
| `PageDirectory.DroppedLinked` | tor/src/ext/OpenBSD_malloc_Linux.c:1631-1638 | Taking a page that is not the first off the list keeps that, too. |
| `PageDirectory.InsertedCounted` | tor/src/ext/OpenBSD_malloc_Linux.c:604-616 | A new page owns nothing, and the other pages' counts stay right. |
| `PageDirectory.SetEntryCounted` | tor/src/ext/OpenBSD_malloc_Linux.c:1609-1618 | Writing one entry keeps dirnum right when it follows the entry. |
| `PageDirectory.PendingRoom` | tor/src/ext/OpenBSD_malloc_Linux.c:622-640 | Pages that are nobody's leave room in the count of their directory page: PD_OFF does not overflow. |
| `PageDirectory.AddCountValid` | tor/src/ext/OpenBSD_malloc_Linux.c:622-634 | Adding the share of a directory page to its dirnum keeps all counts right. |
| `PageDirectory.Overlap` | tor/src/ext/OpenBSD_malloc_Linux.c:622-634 | The share of a directory page in a range of pages fits into the page. |
| `DirectoryWalks.Directory.constructor` | tor/src/ext/OpenBSD_malloc_Linux.c:827-833 | malloc_init: one directory page, index 0, with the 12 reserved entries counted. |
| `DirectoryWalks.Directory.Lookup` | tor/src/ext/OpenBSD_malloc_Linux.c:302-344 | From any live last_dir and prev_dir: the page with the greatest index not above the target, and the sign; the same as a scan from the head. |
| `DirectoryWalks.Directory.ScanBack` | tor/src/ext/OpenBSD_malloc_Linux.c:322-328 | The backward scan ends at the greatest index not above the target. |
| `DirectoryWalks.Directory.ScanForward` | tor/src/ext/OpenBSD_malloc_Linux.c:329-340 | So does the forward scan. |
| `DirectoryWalks.Directory.Remember` | tor/src/ext/OpenBSD_malloc_Linux.c:978-981 | The two-place cache stays on live pages. |
| `DirectoryWalks.Directory.ReadEntry` | tor/src/ext/OpenBSD_malloc_Linux.c:1843-1857 | ifree's way to an entry finds it. |
| `DirectoryWalks.Directory.MapPages` | tor/src/ext/OpenBSD_malloc_Linux.c:593-661 | The missing directory pages go in, all counts are right, and never more than dirs new pages are needed. |
| `DirectoryWalks.Directory.MapStep` | tor/src/ext/OpenBSD_malloc_Linux.c:604-647 | One round of the mapping loop. |
| `DirectoryWalks.Directory.MarkBlock` | tor/src/ext/OpenBSD_malloc_Linux.c:982-1014 | A block gets FIRST, FOLLOW for the rest, and FIRST for the guard page, across directory pages, and nothing else changes. |
| `DirectoryWalks.Directory.FreeBlock` | tor/src/ext/OpenBSD_malloc_Linux.c:1452-1474 | The counting walk finds exactly the size the block was allocated with, and frees exactly its entries. |
| `DirectoryWalks.Directory.FreeExtent` | tor/src/ext/OpenBSD_malloc_Linux.c:1439-1491 | The same with the entry behind the block that guard pages have; where that entry's directory page is missing, the first entry of the page before is written. |
| `DirectoryWalks.Directory.UnmapEntries` | tor/src/ext/OpenBSD_malloc_Linux.c:1605-1647 | The entries of unmapped pages go, and a directory page goes exactly when it is empty. |
| `DirectoryWalks.Directory.Unmap` | tor/src/ext/OpenBSD_malloc_Linux.c:1600-1660 | The whole unmapping, with the walk to its first directory page. |
| `DirectoryWalks.Directory.UnmapTail` | tor/src/ext/OpenBSD_malloc_Linux.c:1594-1660 | The two cached pages are live afterwards, or the caller drops last_dir. |
| `DirectoryWalks.Directory.DropPage` | tor/src/ext/OpenBSD_malloc_Linux.c:1631-1639 | A directory page that owns nothing leaves the list; nothing else changes. |
| `DirectoryWalks.PageZeroOwns` | tor/src/ext/OpenBSD_malloc_Linux.c:827-833 | Directory page 0 is never dropped: it owns the buckets. |
| `PageOwnership.NewBlockApart` | tor/src/ext/OpenBSD_malloc_Linux.c:967-1017 | A new block shares no page with any live block. |
| `PageOwnership.EntriesAre` | tor/src/ext/OpenBSD_malloc_Linux.c:967-1017 | All entries, in numbers: the first 12 for the buckets, FREE on free runs, FIRST, FOLLOW and the guard of each block, the pginfo of a page of chunks, and nothing else. |
| `PageOwnership.AllocAgrees` | tor/src/ext/OpenBSD_malloc_Linux.c:914-1017 | Allocation keeps directory, free list and blocks in agreement: every page is owned once at most. |
| `PageOwnership.FreeAgrees` | tor/src/ext/OpenBSD_malloc_Linux.c:1439-1573 | So does freeing. |
| `PageOwnership.UnmapAgrees` | tor/src/ext/OpenBSD_malloc_Linux.c:1580-1660 | So does giving pages back. |
| `PageOwnership.UsedWith` | tor/src/ext/OpenBSD_malloc_Linux.c:1016-1017 | malloc_used is the sum of the live blocks: one more block. |
| `PageOwnership.UsedWithout` | tor/src/ext/OpenBSD_malloc_Linux.c:1479-1480 | One block less. |
| `FreeListLinks.LinkedInOk` | tor/src/ext/OpenBSD_malloc_Linux.c:1534-1541 | Linking a record in keeps the list doubly linked and inserts its run at that place. |
| `FreeListLinks.UnlinkedOk` | tor/src/ext/OpenBSD_malloc_Linux.c:917-925 | Unlinking a record removes its run. |
| `FreeListLinks.RunChanged` | tor/src/ext/OpenBSD_malloc_Linux.c:926-939 | A record changed in place changes its run only. |
| `FreeListOps.ScanFit` | tor/src/ext/OpenBSD_malloc_Linux.c:862-915 | The scan stops at the first record whose run is large enough. |
| `FreeListOps.RaceAhead` | tor/src/ext/OpenBSD_malloc_Linux.c:1520-1525 | The race ahead stops at the spot, and has counted the runs it passed. |
| `FreeListOps.CountRest` | tor/src/ext/OpenBSD_malloc_Linux.c:1527-1532 | The second loop counts the rest. |
| `FreeListOps.FreeList.Unlink` | tor/src/ext/OpenBSD_malloc_Linux.c:917-924 | The run leaves the list; its record stays for later. |
| `FreeListOps.FreeList.Recycle` | tor/src/ext/OpenBSD_malloc_Linux.c:1022-1029 | The record of a used up run becomes the spare one, or is freed. |
| `FreeListOps.FreeList.Append` | tor/src/ext/OpenBSD_malloc_Linux.c:1542-1554 | The two appending branches, record by record. |
| `FreeListOps.FreeList.PutAt` | tor/src/ext/OpenBSD_malloc_Linux.c:1534-1572 | The branches for a list that is not empty do what the placement says. |
| `FreeListOps.FreeList.Release` | tor/src/ext/OpenBSD_malloc_Linux.c:1500-1573 | Freed pages go onto the list as Place says, cachesize included. |
| `FreeListOps.FreeList.Shorten` | tor/src/ext/OpenBSD_malloc_Linux.c:1590-1592 | A run keeps its first pages. |
| `FreeListOps.FreeList.DropEmptied` | tor/src/ext/OpenBSD_malloc_Linux.c:1668-1710 | A run without pages leaves the list, and its record becomes the spare one. |
| `PageAllocator.Allocator.constructor` | tor/src/ext/OpenBSD_malloc_Linux.c:820-842 | The initial state is in order. |
| `PageAllocator.Allocator.MallocPages` | tor/src/ext/OpenBSD_malloc_Linux.c:849-1020 | First fit from the cache, else new pages; the block was not live before, the invariant of all structures is kept, and the free list changes as TakeFrom says. |
| `PageAllocator.Allocator.FromRun` | tor/src/ext/OpenBSD_malloc_Linux.c:914-1014 | Allocation from a cached run. |
| `PageAllocator.Allocator.FromKernel` | tor/src/ext/OpenBSD_malloc_Linux.c:963-1014 | Allocation of new pages. |
| `PageAllocator.Allocator.Reclaim` | tor/src/ext/OpenBSD_malloc_Linux.c:1439-1492 | free_pages reclaims exactly the pages that malloc_pages marked. |
| `PageAllocator.Allocator.PutOnList` | tor/src/ext/OpenBSD_malloc_Linux.c:1500-1573 | The freed pages go onto the free list, and the three views still agree. |
| `PageAllocator.Allocator.KeepCache` | tor/src/ext/OpenBSD_malloc_Linux.c:1580-1660 | What does not fit the cache goes back to the system. |
| `PageOwnership.FirstIff` | tor/src/ext/OpenBSD_malloc_Linux.c:1427-1434 | An entry is FIRST exactly where a block starts or where a guard page is. |
| `PageOwnership.GuardFreed` | tor/src/ext/OpenBSD_malloc_Linux.c:1439-1491 | What freeing a guard page corrupts: no free list fits the directory any more, and a block right behind it is marked free. |
| `PageAllocator.Allocator.StartFree` | tor/src/ext/OpenBSD_malloc_Linux.c:1427-1492 | The checks, the count and the marks, for any page with an entry: a page at which no live block starts is left alone exactly when it is no guard page. |
| `PageAllocator.Allocator.FreeGuard` | tor/src/ext/OpenBSD_malloc_Linux.c:1427-1492 | A pointer to a guard page passes all checks, and the invariant is lost. |
| `PageAllocator.Allocator.FreePages` | tor/src/ext/OpenBSD_malloc_Linux.c:1418-1715 | The whole of it: a live block is freed, and the free list becomes what FreedTo says; other pages change nothing. |
| `PageAllocator.Allocator.BehindBlock` | tor/src/ext/OpenBSD_malloc_Linux.c:1462-1472 | The page behind a block is never FOLLOW, so the counting walk stops there. |
| `PageHistory.KeptAllIff` | tor/src/ext/OpenBSD_malloc_Linux.c:1581-1592 | Nothing is given back exactly when everything fits, with a swallowed run counted twice. |
| `PageHistory.KeptAllPages` | tor/src/ext/OpenBSD_malloc_Linux.c:1500-1573 | Then the list has the old pages and the freed ones. |
| `PageHistory.NothingSwallowed` | tor/src/ext/OpenBSD_malloc_Linux.c:1546-1554 | Pages just taken from a run never make it swallow another one when they come back. |
| `PageHistory.FreeUndoesAlloc` | tor/src/ext/OpenBSD_malloc_Linux.c:849-942 | Allocating from the cache and freeing again restores the free list run for run. |
| `PageHistory.FreeOrderDoesNotMatter` | tor/src/ext/OpenBSD_malloc_Linux.c:1503-1573 | Two blocks freed in either order leave the same free list, if nothing is given back. |
| `PageHistory.AllocAndFree` | tor/src/ext/OpenBSD_malloc_Linux.c:1418-1715 | The same of the allocator: live blocks are as before, a cached run is restored, and the mapped pages change as the free list does. |
| `ChunkBits.FindChunk` | tor/src/ext/OpenBSD_malloc_Linux.c:1177-1210 | First set bit, then the random walk: it stops on the set bit with exactly that many set bits before it, below the last chunk whatever bits are set behind that. |
| `ChunkBits.FirstWord` | tor/src/ext/OpenBSD_malloc_Linux.c:1178 | The scan for a word that is not empty ends at the first one. |
| `ChunkBits.NthSetUnique` | tor/src/ext/OpenBSD_malloc_Linux.c:1188-1210 | There is just one such bit. |
| `ChunkBits.MoreToCome` | tor/src/ext/OpenBSD_malloc_Linux.c:1192-1209 | While the walk has bits to go, there is a set bit ahead and below the last chunk. |
| `ChunkPages.ChunksApart` | tor/src/ext/OpenBSD_malloc_Linux.c:1218-1225 | Chunks of a page do not overlap, nor do chunks of different pages, and they stay inside their page. |
| `ChunkPages.ChunkBehindHeader` | tor/src/ext/OpenBSD_malloc_Linux.c:1109-1118 | A chunk that is handed out does not touch the in-page header. |
| `ChunkPages.ChunksOf` | tor/src/ext/OpenBSD_malloc_Linux.c:1036-1118 | In numbers, for each size: how many chunks a page has, and how many of them its own pginfo takes. |
| `ChunkPages.FillBits` | tor/src/ext/OpenBSD_malloc_Linux.c:1098-1107 | All valid bits are set; the others are as they were found in memory. |
| `ChunkPages.StealHeader` | tor/src/ext/OpenBSD_malloc_Linux.c:1109-1118 | Just as many chunks are taken from the front as the header needs. |
| `ChunkPages.NewPage` | tor/src/ext/OpenBSD_malloc_Linux.c:1052-1118 | A new page has all its chunks free, the header's excepted; free is the number of their bits, and behind them the bitmap is as found. |
| `ChunkPages.FreeIsCountIff` | tor/src/ext/OpenBSD_malloc_Linux.c:1098-1107 | free is the number of all set bits exactly when the memory behind the last chunk's bit was clear. |
| `ChunkPages.StaleBits` | tor/src/ext/OpenBSD_malloc_Linux.c:1068-1107 | An example in which it was not: 32 chunks, 64 set bits. |
| `ChunkPages.HeaderFreed` | tor/src/ext/OpenBSD_malloc_Linux.c:1734-1749 | A pointer to a chunk of the page's own header passes the checks of free_bytes, and the next chunk handed out then overlaps the pginfo. |
| `ChunkPages.TakeBit` | tor/src/ext/OpenBSD_malloc_Linux.c:1211-1214 | Handing out a free chunk keeps free the number of set chunk bits. |
| `ChunkPages.GiveBit` | tor/src/ext/OpenBSD_malloc_Linux.c:1748-1749 | So does freeing one in use; header bits are never set, and the bits behind the last chunk's never change. |
| `ChunkLayer.InsertOk` | tor/src/ext/OpenBSD_malloc_Linux.c:1763-1764 | A page linked in through a slot is on its list at that place. |
| `ChunkLayer.RemoveOk` | tor/src/ext/OpenBSD_malloc_Linux.c:1781 | A page is taken off through a slot. |
| `ChunkLayer.OrderKeptIff` | tor/src/ext/OpenBSD_malloc_Linux.c:1759-1764 | The loop under the comment "Insert in address order" keeps the order exactly when the list is empty or the page lies below its first page. |
| `ChunkLayer.OrderNotKept` | tor/src/ext/OpenBSD_malloc_Linux.c:1759-1764 | An example in which it does not. |
| `ChunkLayer.FindSpot` | tor/src/ext/OpenBSD_malloc_Linux.c:1760-1762 | Where the insertion loop stops. |
| `ChunkLayer.FindPage` | tor/src/ext/OpenBSD_malloc_Linux.c:1770-1772 | The search finds the page: it is on its bucket's list. |
| `ChunkLayer.SoundAgain` | tor/src/ext/OpenBSD_malloc_Linux.c:1751-1754 | Every bucket list still holds exactly the pages of its size with a free chunk. |
| `ChunkAllocator.Chunks.MakeChunks` | tor/src/ext/OpenBSD_malloc_Linux.c:1036-1142 | A new page of chunks goes to the front of its bucket. |
| `ChunkAllocator.Chunks.BucketFor` | tor/src/ext/OpenBSD_malloc_Linux.c:1157-1169 | The bucket whose chunks are the smallest that fit the size. |
| `ChunkAllocator.Chunks.PickChunk` | tor/src/ext/OpenBSD_malloc_Linux.c:1175-1211 | The chunk picked was free, and is the one that the random walk leads to. |
| `ChunkAllocator.Chunks.FreeBytes` | tor/src/ext/OpenBSD_malloc_Linux.c:1723-1781 | A chunk in use becomes free; a pointer into a chunk or to a free chunk changes nothing; a page without chunks in use is released. |
| `ChunkAllocator.Chunks.InsertPage` | tor/src/ext/OpenBSD_malloc_Linux.c:1756-1765 | A page that became non-full goes onto its bucket's list. |
| `ChunkAllocator.Chunks.ReleasePage` | tor/src/ext/OpenBSD_malloc_Linux.c:1770-1807 | A page that became empty leaves it, and its pginfo goes. |
| `ChunkAllocator.InPageIndex` | tor/src/ext/OpenBSD_malloc_Linux.c:1734-1740 | The chunk number of a pointer, and that the alignment test tells a chunk's address from others. |
| `ChunkAllocator.OnlyOneInUse` | tor/src/ext/OpenBSD_malloc_Linux.c:1749-1768 | The freed chunk makes free equal to total exactly when it was the only one in use. |
| `PageOwnership.InfoAgrees` | tor/src/ext/OpenBSD_malloc_Linux.c:1121-1135 | A page whose entry becomes its pginfo, or FIRST again, keeps directory, free list and blocks in agreement. |
| `PageAllocator.Allocator.SetInfo` | tor/src/ext/OpenBSD_malloc_Linux.c:1121-1135 | A block of one page becomes a page of chunks: its entry is the pginfo's address, and nothing else changes. |
| `PageAllocator.Allocator.ClearInfo` | tor/src/ext/OpenBSD_malloc_Linux.c:1784-1798 | It becomes a block again. |
| `HeapThings.NoOverlap` | tor/src/ext/OpenBSD_malloc_Linux.c:1047-1118 | No two live things share a byte: blocks of pages, chunks in use, and pginfos at the start of their page. (A pginfo elsewhere is a chunk in use.) |
| `HeapThings.PageComes` | tor/src/ext/OpenBSD_malloc_Linux.c:1047-1139 | A block becomes a page of chunks: the program's things stay, but for the block and the chunk that holds the pginfo now. |
| `HeapThings.PageGoes` | tor/src/ext/OpenBSD_malloc_Linux.c:1767-1798 | A page whose only chunk in use is freed becomes a block, and the chunk of its pginfo can be freed. |
| `HeapThings.ChunkComes` | tor/src/ext/OpenBSD_malloc_Linux.c:1211-1225 | A chunk that is handed out holds no pginfo, and all else stays. |
| `HeapThings.ChunkGoes` | tor/src/ext/OpenBSD_malloc_Linux.c:1741-1749 | Freeing a chunk of the program's leaves all pginfos their memory. |
| `HeapThings.NewIsApart` | tor/src/ext/OpenBSD_malloc_Linux.c:1239-1275 | New memory has no byte of anything that was in memory before. |
| `HeapThings.FreeUndoesMalloc` | tor/src/ext/OpenBSD_malloc_Linux.c:1239-1275 | Allocating and freeing again leaves the program what it had, where it was, whatever pages came and went. |
| `Heaps.LevelOfPginfo` | tor/src/ext/OpenBSD_malloc_Linux.c:1052-1073 | malloc_bytes calls itself for the pginfo of a page at most twice: the page of the smallest chunks holds its own. |
| `Heaps.Heap.MakePage` | tor/src/ext/OpenBSD_malloc_Linux.c:1036-1142 | malloc_make_chunks, with malloc_pages for the page and malloc_bytes for a pginfo that is not in it: the program's things are as before. |
| `Heaps.Heap.MallocBytes` | tor/src/ext/OpenBSD_malloc_Linux.c:1148-1226 | The chunk has the least of the sizes 16 to 2048 that holds what was asked for, and lies at its number times that size in its page; it was no part of anything alive, holds no pginfo, and is the one that the random walk leads to. |
| `Heaps.Heap.Imalloc` | tor/src/ext/OpenBSD_malloc_Linux.c:1239-1275 | Up to 2048 bytes are a chunk of the least size that holds them, aligned to it, on a page of size 0 exactly for malloc(0); more bytes are whole pages, less than one of them unused. The program has exactly that thing more. |
| `Heaps.LeastIsLeast` | tor/src/ext/OpenBSD_malloc_Linux.c:1155-1171 | No other chunk size that holds the bytes is smaller. |
| `Heaps.Heap.FreeChunk` | tor/src/ext/OpenBSD_malloc_Linux.c:1723-1808 | The program has exactly that chunk less, also when its page goes and the pginfo's chunk with it. |
| `Heaps.Heap.PageFreed` | tor/src/ext/OpenBSD_malloc_Linux.c:1783-1807 | The page's entry, its pginfo and the page itself go, in this order. |
| `Heaps.Heap.Ifree` | tor/src/ext/OpenBSD_malloc_Linux.c:1811-1869 | The entry of the pointer's page tells blocks from chunks; the program has exactly the thing freed less, and all others where they were. |
| `HashChains.SpliceForest` | tor/src/ext/ht.h:288-290 | One link written through a slot keeps all chains acyclic and disjoint. |
| `HashPrimes.Ladder` | tor/src/ext/ht.h:425-437 | The table of lengths: each nearly twice the one before, none divisible by 2, 3, 5 or 7, and their load limits climb. |
| `HashPrimes.LoadLimitIs` | tor/src/ext/ht.h:454-454 | The load limit is the greatest number of entries that fill three fifths of the length at most. |
| `HashPrimes.FirstAndLast` | tor/src/ext/ht.h:429-434 | The shortest table is for 31 entries, the longest for 241591913. |
| `HashPrimes.ClimbBehindTableIff` | tor/src/ext/ht.h:451-456 | The growth loop stops at the first length whose limit exceeds the size, and reads behind the table exactly when the size reaches the last limit. |
| `HashPrimes.GrowthClimbsOne` | tor/src/ext/ht.h:284-285 | A table that grows because it is at its limit climbs exactly one length. |
| `HashTables.FirstWith` | tor/src/ext/ht.h:260-265 | The first match on a chain, or its end. |
| `HashTables.BucketNumIs` | tor/src/ext/ht.h:216-221 | The bucket of a hash is below the length, and differs from the hash by a multiple of it. |
| `HashTables.FindSlot` | tor/src/ext/ht.h:254-266 | The search through a bucket ends at the slot of the first match, or at the last slot. |
| `HashTables.FoundIff` | tor/src/ext/ht.h:254-266 | It finds the key's element exactly when the table has it. |
| `HashTables.Added` | tor/src/ext/ht.h:288-290 | A new element in its bucket: the table stands for the map with it. |
| `HashTables.Dropped` | tor/src/ext/ht.h:325-328 | An element unlinked: the map without its key. |
| `HashTables.Swapped` | tor/src/ext/ht.h:304-309 | An element in the place of the one with its key: the map with the new one. |
| `HashTables.LinkMustBeNull` | tor/src/ext/ht.h:301-313 | An element that matches nothing is put behind its bucket's last one with the link it has: the table stands for the map with it exactly when that link was NULL. |
| `HashRehash.Moved` | tor/src/ext/ht.h:464-470 | Popping an element and pushing it to another bucket keeps all chains and all elements. |
| `HashRehash.RehashBucket` | tor/src/ext/ht.h:483-492 | The inner loop of the in-place branch ends, and leaves in the bucket only elements that belong there. |
| `HashRehash.RehashInPlace` | tor/src/ext/ht.h:476-495 | The in-place branch ends with the same elements, each in the bucket that differs from its hash by a multiple of the new length, though it pushes into buckets it has yet to visit. |
| `HashRehash.EmptyBucket` | tor/src/ext/ht.h:463-470 | The inner loop of the fresh-table branch empties an old bucket. |
| `HashRehash.RehashFresh` | tor/src/ext/ht.h:457-474 | The fresh-table branch ends with the same elements in buckets with the same property. |
| `HashRehash.SameBuckets` | tor/src/ext/ht.h:457-495 | Both branches fill each bucket with the same set of elements. |
| `HashTableOps.HashTable.constructor` | tor/src/ext/ht.h:243-250 | The empty table stands for the empty map. |
| `HashTableOps.InBuckets` | tor/src/ext/ht.h:216-221 | Each element is on the chain of the bucket that differs from its hash by a multiple of the number of buckets. |
| `HashTableOps.SharesChainIff` | tor/src/ext/ht.h:216-221 | Two elements share a chain exactly when their hashes differ by a multiple of the number of buckets. |
| `HashTableOps.HashTable.Grow` | tor/src/ext/ht.h:441-500 | Which growth happens, its result code and new length; the map never changes, and a failed allocation changes nothing. |
| `HashTableOps.HashTable.GrowFresh` | tor/src/ext/ht.h:457-474 | The first branch on the table object. |
| `HashTableOps.HashTable.GrowInPlace` | tor/src/ext/ht.h:475-495 | The second one. |
| `HashTableOps.HashTable.RoomToGrow` | tor/src/ext/ht.h:284-285 | A table within its limit can always grow, given memory: no read behind the prime table. |
| `HashTableOps.HashTable.Find` | tor/src/ext/ht.h:269-277 | The key's element or NULL; only the probe's hash is written. |
| `HashTableOps.HashTable.Insert` | tor/src/ext/ht.h:280-291 | The map with the new element; at most one length is climbed, and the limit is kept up to the last length. |
| `HashTableOps.HashTable.Replace` | tor/src/ext/ht.h:295-314 | The map with the new element, and the old one returned and unlinked; when the element was in the table already, the count goes wrong by one. |
| `HashTableOps.HashTable.Remove` | tor/src/ext/ht.h:317-330 | The map without the key; the element is returned unlinked. |
| `HashTableOps.NextPrime` | tor/src/ext/ht.h:451-456 | The growth loop. |
| `HashWalk.OrderOnce` | tor/src/ext/ht.h:361-400 | The order of the walk has each element exactly once. |
| `HashWalk.FirstBucket` | tor/src/ext/ht.h:361-374 | The loop over buckets finds the next element of the order, or the end. |
| `HashWalk.Next` | tor/src/ext/ht.h:381-400 | HT_NEXT moves on by exactly one element. |
| `HashWalk.TakenOut` | tor/src/ext/ht.h:403-419 | Taking the current element out leaves the elements before and behind it in order. |
| `HashWalk.StayingIs` | tor/src/ext/ht.h:336-357 | The elements that stay are exactly those that the callback answered 0 for. |
| `HashWalk.RepIsBad` | tor/src/ext/ht.h:513-546 | The check answers 0 exactly for tables whose representation is in order. |
| `HashWalk.RepOkIff` | tor/src/ext/ht.h:528-529 | A table in order is bad only when it is over its load limit. |
| `HashIteration.NextRmv` | tor/src/ext/ht.h:403-420 | HT_NEXT_RMV removes the current element, moves on by one, and keeps the count right. |
| `HashIteration.Sweep` | tor/src/ext/ht.h:361-420 | Any interleaving of HT_NEXT and HT_NEXT_RMV visits each element exactly once and leaves exactly those not removed. |
| `HashIteration.ForeachFn` | tor/src/ext/ht.h:336-357 | fn is called once for each element, and the table keeps exactly those it answered 0 for. |
| `HashRuns.DoElement` | tor/src/ext/ht.h:252-330 | An insertion, replacement, removal or search keeps the representation in order and answers as the map does; at most one length is climbed. |
| `HashRuns.DoWalk` | tor/src/ext/ht.h:335-420 | So does a walk with removals: it visits each element once, and the map loses those removed; which of them have a link left over is known. |
| `HashRuns.Check` | tor/src/ext/ht.h:513-546 | HT_REP_IS_BAD_ then finds fault exactly when there are more entries than the 241591913 that the longest table is for. |
| `HashRuns.Run` | tor/src/ext/ht.h:252-546 | A program that chooses each operation from the answers before it gets a map's answers, however long it runs; after each step HT_REP_IS_BAD_ answers 0 exactly while the entries are within the last length's limit; nothing is read behind the prime table. |
| `TrunnelBytes.At32` | tor/src/trunnel/ed25519_cert.c:1343-1346 | Numbers in network order: writing and reading are inverse. |
| `TrunnelBytes.PrefixTruncated` | tor/src/trunnel/ed25519_cert.c:1473-1564 | If verdicts are final and objects end inside the input, strict prefixes of accepted inputs are truncated. |
| `TrunnelBytes.ManyFinal` | tor/src/trunnel/ed25519_cert.c:2373-2391 | The verdict on a list is final when the elements' verdicts are. |
| `TrunnelBytes.ManyReads` | tor/src/trunnel/ed25519_cert.c:2373-2391 | A list that was read is encoded to the bytes consumed. |
| `TrunnelBytes.ManyReturns` | tor/src/trunnel/ed25519_cert.c:2373-2391 | An encoded list is read back, in normal form. |
| `TrunnelBytes.ManyFits` | tor/src/trunnel/ed25519_cert.c:2321-2331 | A list of encodable elements needs exactly the room of its encoding. |
| `TrunnelBytes.SumLenIs` | tor/src/trunnel/ed25519_cert.c:2272-2279 | The sum of the elements' encoded_len is the length of the encoding. |
| `TrunnelBuffers.Writer.Put` | tor/src/trunnel/ed25519_cert.c:1357-1366 | The room is checked, and then exactly the field's bytes are written behind those before. |
| `TrunnelBuffers.Writer.PutBack` | tor/src/trunnel/ed25519_cert.c:1434-1441 | A length is written back over its place, and nothing else changes. |
| `TrunnelBuffers.Writer.OnlyWritten` | tor/src/trunnel/ed25519_cert.c:1329-1467 | Bytes outside the first `written` ones are never touched. |
| `LinkSpecifiers.VerdictFinal` | tor/src/trunnel/ed25519_cert.c:1473-1564 | link_specifier: success and -1 do not change when bytes are added. |
| `LinkSpecifiers.ReadsBack` | tor/src/trunnel/ed25519_cert.c:1473-1564 | What was read is encodable, and its encoding is the bytes consumed. |
| `LinkSpecifiers.RoundTrip` | tor/src/trunnel/ed25519_cert.c:1329-1467 | The encoding is read back, with the length right and only the type's arm filled. |
| `LinkSpecifiers.Fits` | tor/src/trunnel/ed25519_cert.c:1268-1319 | -2 exactly when there is less room than encoded_len, and else encoded_len bytes are written. |
| `LinkSpecifiers.NormalEncodes` | tor/src/trunnel/ed25519_cert.c:1329-1467 | The normal form has the same encoding. |
| `LinkSpecifiers.EncodeInto` | tor/src/trunnel/ed25519_cert.c:1329-1467 | The encoder, back-patching included, writes the encoding, or fails as Result says. |
| `LinkSpecifiers.ParseFrom` | tor/src/trunnel/ed25519_cert.c:1473-1564 | The parser decides as the grammar does. |
| `ExtendCells.Create2Final` | tor/src/trunnel/ed25519_cert.c:259-290 | create2_cell_body: verdicts are final. |
| `ExtendCells.Create2Reads` | tor/src/trunnel/ed25519_cert.c:259-290 | What was read is encoded to the bytes consumed. |
| `ExtendCells.Create2RoundTrip` | tor/src/trunnel/ed25519_cert.c:188-252 | The encoding is read back. |
| `ExtendCells.Create2Fits` | tor/src/trunnel/ed25519_cert.c:162-179 | -2 exactly below encoded_len. |
| `ExtendCells.EncodeCreate2Into` | tor/src/trunnel/ed25519_cert.c:188-252 | The encoder writes the encoding. |
| `ExtendCells.ParseCreate2From` | tor/src/trunnel/ed25519_cert.c:259-290 | The parser decides as the grammar does. |
| `ExtendCells.SpecsFinal` | tor/src/trunnel/ed25519_cert.c:2373-2391 | The counted list of specifiers: verdicts are final. |
| `ExtendCells.EncodeSpecsInto` | tor/src/trunnel/ed25519_cert.c:2315-2331 | The list encoder; the first element that fails decides the result. |
| `ExtendCells.ParseSpecsFrom` | tor/src/trunnel/ed25519_cert.c:2373-2391 | The list parser. |
| `ExtendCells.ListFinal` | tor/src/trunnel/ed25519_cert.c:2662-2698 | link_specifier_list: verdicts are final. |
| `ExtendCells.ListReads` | tor/src/trunnel/ed25519_cert.c:2662-2698 | What was read is encoded to the bytes consumed. |
| `ExtendCells.ListRoundTrip` | tor/src/trunnel/ed25519_cert.c:2597-2655 | The encoding is read back, whatever follows it. |
| `ExtendCells.ListFits` | tor/src/trunnel/ed25519_cert.c:2568-2588 | -2 exactly below encoded_len. |
| `ExtendCells.EncodeListInto` | tor/src/trunnel/ed25519_cert.c:2597-2655 | The encoder. |
| `ExtendCells.ParseListFrom` | tor/src/trunnel/ed25519_cert.c:2662-2698 | The parser. |
| `ExtendCells.Extend2Final` | tor/src/trunnel/ed25519_cert.c:2365-2408 | extend2_cell_body: success and -1 do not change when bytes are added, through the nested list and unions. |
| `ExtendCells.Extend2Reads` | tor/src/trunnel/ed25519_cert.c:2365-2408 | The bytes consumed are the encoding of the object that comes out. |
| `ExtendCells.Extend2Prefix` | tor/src/trunnel/ed25519_cert.c:2365-2408 | Every strict prefix of an accepted input gets -2. |
| `ExtendCells.Extend2RoundTrip` | tor/src/trunnel/ed25519_cert.c:2293-2358 | Parsing an encoding, whatever follows, gives the object back in normal form and consumes just the encoding. |
| `ExtendCells.Extend2Fits` | tor/src/trunnel/ed25519_cert.c:2261-2284 | An encodable object gets -2 exactly when there is less room than encoded_len. |
| `ExtendCells.EncodeExtend2Into` | tor/src/trunnel/ed25519_cert.c:2293-2358 | The encoder writes the encoding, or fails as Extend2Result says. |
| `ExtendCells.EncodeExtend2To` | tor/src/trunnel/ed25519_cert.c:2293-2358 | On a caller's buffer: only the encoding's bytes change, and on failure nothing outside the room given. |
| `ExtendCells.ParseExtend2From` | tor/src/trunnel/ed25519_cert.c:2365-2408 | The parser decides as the grammar does. |
| `CertExtensions.VerdictFinal` | tor/src/trunnel/ed25519_cert.c:630-692 | ed25519_cert_extension: verdicts are final. |
| `CertExtensions.ReadsBack` | tor/src/trunnel/ed25519_cert.c:630-692 | What was read is encoded to the bytes consumed. |
| `CertExtensions.RoundTrip` | tor/src/trunnel/ed25519_cert.c:522-623 | The encoding is read back, length normalised, active arm only. |
| `CertExtensions.Fits` | tor/src/trunnel/ed25519_cert.c:482-513 | -2 exactly below encoded_len. |
| `CertExtensions.EncodeInto` | tor/src/trunnel/ed25519_cert.c:522-623 | The encoder with its two-byte back-patch. |
| `CertExtensions.ParseFrom` | tor/src/trunnel/ed25519_cert.c:630-692 | The parser decides as the grammar does. |
| `Ed25519Certs.VerdictFinal` | tor/src/trunnel/ed25519_cert.c:2000-2071 | ed25519_cert: success and -1 do not change when bytes are added. |
| `Ed25519Certs.ReadsBack` | tor/src/trunnel/ed25519_cert.c:2000-2071 | What was read is encoded to the bytes consumed. |
| `Ed25519Certs.PrefixTruncatedToo` | tor/src/trunnel/ed25519_cert.c:2000-2071 | Every strict prefix of an accepted input gets -2. |
| `Ed25519Certs.RoundTrip` | tor/src/trunnel/ed25519_cert.c:1894-1995 | The encoding is read back, whatever follows it. |
| `Ed25519Certs.Fits` | tor/src/trunnel/ed25519_cert.c:1847-1885 | -2 exactly below encoded_len. |
| `Ed25519Certs.EncodeInto` | tor/src/trunnel/ed25519_cert.c:1894-1995 | The encoder. |
| `Ed25519Certs.ParseFrom` | tor/src/trunnel/ed25519_cert.c:2000-2071 | The parser: a wrong version is -1 before anything else is looked at. |
| `CertsCells.CertFinal` | tor/src/trunnel/link_handshake.c:602-633 | certs_cell_cert: verdicts are final. |
| `CertsCells.CertReads` | tor/src/trunnel/link_handshake.c:602-633 | What was read is encoded to the bytes consumed. |
| `CertsCells.CertReturns` | tor/src/trunnel/link_handshake.c:532-598 | The encoding is read back. |
| `CertsCells.VerdictFinal` | tor/src/trunnel/link_handshake.c:2010-2046 | certs_cell: verdicts are final. |
| `CertsCells.NeverInvalid` | tor/src/trunnel/link_handshake.c:2010-2046 | The parser never answers -1: an input is complete, or too short. |
| `CertsCells.ReadsBack` | tor/src/trunnel/link_handshake.c:2010-2046 | What was read is encoded to the bytes consumed. |
| `CertsCells.PrefixTruncatedToo` | tor/src/trunnel/link_handshake.c:2010-2046 | Every strict prefix of an accepted input gets -2. |
| `CertsCells.RoundTrip` | tor/src/trunnel/link_handshake.c:1946-2006 | The encoding is read back, whatever follows it. |
| `CertsCells.Fits` | tor/src/trunnel/link_handshake.c:1917-1936 | -2 exactly below encoded_len. |
| `CertsCells.EncodeInto` | tor/src/trunnel/link_handshake.c:1946-2006 | The encoder. |
| `CertsCells.ParseFrom` | tor/src/trunnel/link_handshake.c:2010-2046 | The parser. |
| `HandshakeCells.CrosscertFinal` | tor/src/trunnel/link_handshake.c:928-965 | rsa_ed_crosscert: verdicts are final. |
| `HandshakeCells.CrosscertReads` | tor/src/trunnel/link_handshake.c:928-965 | What was read is encoded to the bytes consumed, and end_of_signed is where the signed part ends. |
| `HandshakeCells.CrosscertRoundTrip` | tor/src/trunnel/link_handshake.c:850-923 | The encoding is read back, with the mark set. |
| `HandshakeCells.CrosscertFits` | tor/src/trunnel/link_handshake.c:821-841 | -2 exactly below encoded_len. |
| `HandshakeCells.EncodeCrosscertInto` | tor/src/trunnel/link_handshake.c:850-923 | The encoder. |
| `HandshakeCells.ParseCrosscertFrom` | tor/src/trunnel/link_handshake.c:928-965 | The parser. |
| `HandshakeCells.MethodsVerdict` | tor/src/trunnel/link_handshake.c:300-313 | The list of methods is truncated exactly when it is too short for its count, and never -1. |
| `HandshakeCells.ChallengeFinal` | tor/src/trunnel/link_handshake.c:285-321 | auth_challenge_cell: verdicts are final. |
| `HandshakeCells.ChallengeReads` | tor/src/trunnel/link_handshake.c:285-321 | What was read is encoded to the bytes consumed. |
| `HandshakeCells.ChallengeRoundTrip` | tor/src/trunnel/link_handshake.c:213-280 | The encoding is read back. |
| `HandshakeCells.ChallengeLenIs` | tor/src/trunnel/link_handshake.c:187-204 | encoded_len is the length of the encoding. |
| `HandshakeCells.EncodeChallengeInto` | tor/src/trunnel/link_handshake.c:213-280 | The encoder: -2 exactly when there is too little room. |
| `HandshakeCells.ParseChallengeFrom` | tor/src/trunnel/link_handshake.c:285-321 | The parser. |
| `Auth1Cells.Verdicts` | tor/src/trunnel/link_handshake.c:1666-1757 | auth1: the verdict depends on the length and the context only; without a context it is -1. |
| `Auth1Cells.MoreBytes` | tor/src/trunnel/link_handshake.c:1738-1744 | Bytes added to an accepted input become part of the signature and change nothing else. |
| `Auth1Cells.ReadsBack` | tor/src/trunnel/link_handshake.c:1666-1757 | What was read is encoded to the same bytes, and end_of_signed is the end of the signed part. |
| `Auth1Cells.RoundTrip` | tor/src/trunnel/link_handshake.c:1526-1661 | The exact-length round trip, with the arm that the context selects and both marks set. |
| `Auth1Cells.SignatureOutside` | tor/src/trunnel/link_handshake.c:1726-1736 | The bytes up to the mark do not depend on the signature. |
| `Auth1Cells.Fits` | tor/src/trunnel/link_handshake.c:1464-1517 | -2 exactly below encoded_len. |
| `Auth1Cells.EncodeInto` | tor/src/trunnel/link_handshake.c:1526-1661 | The encoder. |
| `Auth1Cells.ParseFrom` | tor/src/trunnel/link_handshake.c:1666-1757 | The parser. |
| `Pwboxes.ReadsBack` | tor/src/trunnel/pwbox.c:475-544 | pwbox: an accepted input is consumed whole and is the object's encoding. |
| `Pwboxes.RoundTrip` | tor/src/trunnel/pwbox.c:358-470 | The exact-length round trip, with greedy data before the trailer. |
| `Pwboxes.EncodingsAreAccepted` | tor/src/trunnel/pwbox.c:475-544 | The accepted inputs are exactly the encodings. |
| `Pwboxes.MoreBytes` | tor/src/trunnel/pwbox.c:507-532 | With bytes added the input stays accepted, and the old trailer becomes data. |
| `Pwboxes.Fits` | tor/src/trunnel/pwbox.c:320-350 | -2 exactly below encoded_len. |
| `Pwboxes.EncodeInto` | tor/src/trunnel/pwbox.c:358-470 | The encoder; its two late check_failed exits are unreachable. |
| `Pwboxes.ParseFrom` | tor/src/trunnel/pwbox.c:475-544 | The parser. |
| `NetinfoCells.AddrFinal` | tor/src/trunnel/netinfo.c:288-345 | netinfo_addr: verdicts are final, also over skipped bodies. |
| `NetinfoCells.AddrReturns` | tor/src/trunnel/netinfo.c:189-282 | The encoding is read back in normal form. |
| `NetinfoCells.BytesKeptIff` | tor/src/trunnel/netinfo.c:327-330 | Re-encoding gives the parsed bytes back exactly when the type is known or the body is empty. |
| `NetinfoCells.EncodeAddrInto` | tor/src/trunnel/netinfo.c:189-282 | The encoder with its back-patch. |
| `NetinfoCells.ParseAddrFrom` | tor/src/trunnel/netinfo.c:288-345 | The parser. |
| `NetinfoCells.VerdictFinal` | tor/src/trunnel/netinfo.c:660-707 | netinfo_cell: verdicts are final. |
| `NetinfoCells.PrefixTruncatedToo` | tor/src/trunnel/netinfo.c:660-707 | Every strict prefix of an accepted input gets -2. |
| `NetinfoCells.RoundTrip` | tor/src/trunnel/netinfo.c:582-655 | The encoding is read back, whatever follows it. |
| `NetinfoCells.ReencodeIdempotent` | tor/src/trunnel/netinfo.c:582-707 | Parsing and encoding again is idempotent on bytes. |
| `NetinfoCells.Fits` | tor/src/trunnel/netinfo.c:547-572 | -2 exactly below encoded_len. |
| `NetinfoCells.EncodeInto` | tor/src/trunnel/netinfo.c:582-655 | The encoder. |
| `NetinfoCells.ParseFrom` | tor/src/trunnel/netinfo.c:660-707 | The parser. |
| `SendmeCells.VerdictFinal` | tor/src/trunnel/sendme_cell.c:276-332 | sendme_cell: verdicts are final. |
| `SendmeCells.PrefixTruncatedToo` | tor/src/trunnel/sendme_cell.c:276-332 | Every strict prefix of an accepted input gets -2. |
| `SendmeCells.RoundTrip` | tor/src/trunnel/sendme_cell.c:183-270 | The encoding is read back, whatever follows it. |
| `SendmeCells.BytesKeptIff` | tor/src/trunnel/sendme_cell.c:303-325 | Re-encoding gives the parsed bytes back exactly when no version 0 body was skipped. |
| `SendmeCells.ReencodeIdempotent` | tor/src/trunnel/sendme_cell.c:183-332 | Parsing and encoding again is idempotent on bytes. |
| `SendmeCells.Fits` | tor/src/trunnel/sendme_cell.c:145-173 | -2 exactly below encoded_len. |
| `SendmeCells.EncodeInto` | tor/src/trunnel/sendme_cell.c:183-270 | The encoder. |
| `SendmeCells.ParseFrom` | tor/src/trunnel/sendme_cell.c:276-332 | The parser. |
| `WireFormats.ListPlaces` | tor/src/trunnel/ed25519_cert.c:2373-2391 | Each element of a list begins where the one before ends. |
| `WireFormats.ParsedSpecifier` | tor/src/trunnel/ed25519_cert.c:1473-1564 | In numbers: types 0, 1, 2 and 3 are accepted exactly with length bytes 6, 18, 20 and 32; the place and byte order of each field; when the input is too short. |
| `WireFormats.EncodedSpecifier` | tor/src/trunnel/ed25519_cert.c:1329-1467 | The same of the bytes written, and which structures get -1 or -2. |
| `WireFormats.ParsedCreate2` | tor/src/trunnel/ed25519_cert.c:259-290 | Type, length and data of the handshake are at these places; truncated exactly when they are not all there. |
| `WireFormats.EncodedCreate2` | tor/src/trunnel/ed25519_cert.c:188-252 | The same of the bytes written; -1 exactly when the data is not as long as its length field. |
| `WireFormats.ParsedExtend2` | tor/src/trunnel/ed25519_cert.c:2365-2408 | The count byte, the specifiers one after the other, and the handshake. |
| `WireFormats.EncodedExtend2` | tor/src/trunnel/ed25519_cert.c:2293-2358 | The same of the bytes written. |
| `WireFormats.ParsedList` | tor/src/trunnel/ed25519_cert.c:2662-2698 | The count byte and the specifiers one after the other. |
| `WireFormats.ParsedExtension` | tor/src/trunnel/ed25519_cert.c:630-692 | Length, type, flags and body of a certificate extension; type 4 has a key of 32 bytes. |
| `WireFormats.EncodedExtension` | tor/src/trunnel/ed25519_cert.c:522-624 | The same of the bytes written, and which structures get -1 or -2. |
| `WireFormats.ParsedCert` | tor/src/trunnel/ed25519_cert.c:2000-2071 | Version 1 only, and at least 40 bytes of head. |
| `WireFormats.ParsedCertFields` | tor/src/trunnel/ed25519_cert.c:2000-2071 | The places and byte order of all fields, the extensions one after the other, and 64 bytes of signature. |
| `WireFormats.EncodedCert` | tor/src/trunnel/ed25519_cert.c:1894-1995 | The same of the bytes written. |
| `WireFormats.ParsedCellCert` | tor/src/trunnel/link_handshake.c:602-633 | Type, length and body of a certificate of a CERTS cell. |
| `WireFormats.EncodedCellCert` | tor/src/trunnel/link_handshake.c:532-597 | The same of the bytes written. |
| `WireFormats.ParsedCertsCell` | tor/src/trunnel/link_handshake.c:2010-2046 | The count byte and the certificates one after the other. |
| `WireFormats.EncodedCertsCell` | tor/src/trunnel/link_handshake.c:1946-2005 | The same of the bytes written. |
| `WireFormats.ParsedCrosscert` | tor/src/trunnel/link_handshake.c:928-965 | Key, expiration in four bytes, length and signature of a cross-certificate, and the mark behind the expiration. |
| `WireFormats.EncodedCrosscert` | tor/src/trunnel/link_handshake.c:850-922 | The same of the bytes written. |
| `WireFormats.MethodsAt` | tor/src/trunnel/link_handshake.c:285-321 | Each method is two bytes, the most significant one first. |
| `WireFormats.ParsedChallenge` | tor/src/trunnel/link_handshake.c:285-321 | Challenge, count and methods of an AUTH_CHALLENGE cell. |
| `WireFormats.EncodedChallenge` | tor/src/trunnel/link_handshake.c:213-279 | The same of the bytes written. |
| `WireFormats.ParsedAuth1` | tor/src/trunnel/link_handshake.c:1666-1757 | The 32-byte fields at multiples of 32 behind the type, with or without the two keys that the context selects, and the verdict for each length. |
| `WireFormats.EncodedAuth1` | tor/src/trunnel/link_handshake.c:1526-1661 | The same of the bytes written. |
| `WireFormats.ParsedPwbox` | tor/src/trunnel/pwbox.c:475-544 | The magic string, header, initialisation vector and data, and the last 32 bytes as the MAC. |
| `WireFormats.EncodedPwbox` | tor/src/trunnel/pwbox.c:358-470 | The same of the bytes written. |
| `WireFormats.ParsedAddr` | tor/src/trunnel/netinfo.c:288-346 | Types 4 and 6 are accepted exactly with lengths 4 and 16; the bodies of others are skipped. |
| `WireFormats.EncodedAddr` | tor/src/trunnel/netinfo.c:189-283 | The same of the bytes written. |
| `WireFormats.ParsedNetinfo` | tor/src/trunnel/netinfo.c:660-708 | The time in four bytes, the other address, the count and the own addresses. |
| `WireFormats.EncodedNetinfo` | tor/src/trunnel/netinfo.c:582-655 | The same of the bytes written. |
| `WireFormats.ParsedSendme` | tor/src/trunnel/sendme_cell.c:276-332 | Version, length and digest of a SENDME cell; only versions 0 and 1. |
| `WireFormats.EncodedSendme` | tor/src/trunnel/sendme_cell.c:183-271 | The same of the bytes written. |
| `QueueLinks.InsertOk` | tor/src/ext/tor_queue.h:388-420 | Linking an element in at any place keeps all links and back links; so does it tell where the final link is. |
| `QueueLinks.RemoveOk` | tor/src/ext/tor_queue.h:422-431 | Unlinking one does, too. |
| `QueueLinks.ReplaceOk` | tor/src/ext/tor_queue.h:433-443 | So does putting one in the place of another. |
| `QueueLinks.WalkForward` | tor/src/ext/tor_queue.h:357-360 | FOREACH sees the sequence. |
| `TailQueues.LastLink` | tor/src/ext/tor_queue.h:383-386 | tqh_last addresses the final, null link, in the empty queue too. |
| `TailQueues.BeforeIs` | tor/src/ext/tor_queue.h:348-353 | The casts of LAST and PREV find the element before, and null before the first. |
| `TailQueues.WalkBackward` | tor/src/ext/tor_queue.h:369-372 | FOREACH_REVERSE sees the sequence reversed. |
| `TailQueues.TailQueue.InsertHead` | tor/src/ext/tor_queue.h:388-396 | The element in front of the sequence. |
| `TailQueues.TailQueue.InsertTail` | tor/src/ext/tor_queue.h:398-403 | The element behind it, through tqh_last. |
| `TailQueues.TailQueue.InsertAfter` | tor/src/ext/tor_queue.h:405-413 | The element behind a given one. |
| `TailQueues.TailQueue.InsertBefore` | tor/src/ext/tor_queue.h:415-420 | The element before a given one, without the head being named. |
| `TailQueues.TailQueue.Remove` | tor/src/ext/tor_queue.h:422-431 | The sequence without the element. |
| `TailQueues.TailQueue.Replace` | tor/src/ext/tor_queue.h:433-443 | The sequence with one element for another. |
| `TailQueues.TailQueue.Walks` | tor/src/ext/tor_queue.h:357-372 | The forward walk, the LAST/PREV walk reversed, and the sequence agree after any operations. |
| `CommentedLines.RebalancedIsBalanced` | tor/scripts/maint/annotate_ifdef_directives.py:79-94 | A cut-down expression is balanced unless what is left closes more parentheses than it opens. |
| `CommentedLines.TruncateIsLongestFit` | tor/scripts/maint/annotate_ifdef_directives.py:96-132 | Of an expression that is too long, the longest prefix is kept that fits with its parentheses closed; the result fits. |
| `CommentedLines.TruncateExpression` | tor/scripts/maint/annotate_ifdef_directives.py:96-132 | The loop computes that. |
| `CommentedLines.CommentedLine` | tor/scripts/maint/annotate_ifdef_directives.py:134-191 | The line fits into 80 columns. |
| `CommentedLines.NegateTwiceIff` | tor/scripts/maint/annotate_ifdef_directives.py:193-231 | Which expressions a double negation restores, exactly. |
| `IfNesting.AcceptsIffWellNested` | tor/scripts/maint/annotate_ifdef_directives.py:281-308 | The stack machine accepts exactly the files that the grammar of conditionals derives: nested, #else last. |
| `IfNesting.InnermostUnique` | tor/scripts/maint/annotate_ifdef_directives.py:251-278 | By counting, a line has at most one innermost #if. |
| `IfNesting.FramesNext` | tor/scripts/maint/annotate_ifdef_directives.py:265-306 | The stack is that of the #ifs open at a line, with the arms they had. |
| `AnnotateFile.Translate` | tor/scripts/maint/annotate_ifdef_directives.py:241-308 | Problem is raised exactly for files that are not well nested; each line out is the line in, or names the innermost #if's expression as the rules for #else and #endif say; what text that is, is stated by the members of AnnotateText. |
| `AnnotateFile.Step` | tor/scripts/maint/annotate_ifdef_directives.py:256-306 | One line: what is written, what is pushed and popped, and when it goes wrong. |
| `AnnotateFile.ChangedLinesFit` | tor/scripts/maint/annotate_ifdef_directives.py:285-305 | Only #else and #endif lines change, and then fit into 80 columns. |
| `AnnotateFile.LineSettled` | tor/scripts/maint/annotate_ifdef_directives.py:285-305 | A line once translated stays as it is. |
| `AnnotateFile.TranslateTwice` | tor/scripts/maint/annotate_ifdef_directives.py:241-308 | Translating the output again changes nothing. |
| `AnnotateText.InArm` | tor/scripts/maint/annotate_ifdef_directives.py:256-293 | A line in an arm belongs to the #if before it, and there was an #elif exactly when the line is not in the first arm, seen from the grammar. |
| `AnnotateText.ElseText` | tor/scripts/maint/annotate_ifdef_directives.py:281-289 | More than four lines below its #if and without #elif, the #else is in characters: the expression in !( ), defined(..) with a mark, or what was negated without the negation. |
| `AnnotateText.ElseNames` | tor/scripts/maint/annotate_ifdef_directives.py:281-289 | Within four lines or behind an #elif the #else stays as it is; a comment that does not fit into 80 columns is cut to 67. |
| `AnnotateText.EndifText` | tor/scripts/maint/annotate_ifdef_directives.py:291-306 | The #endif in characters: the expression, with the dots exactly when there was an #elif, or the line as it was within four lines; with or without an #else. |
| `AnnotateText.TruncateCuts` | tor/scripts/maint/annotate_ifdef_directives.py:96-132 | An expression too long is cut at the last place at which it fits, with three dots and a ) for each parenthesis left open; to the dots alone if there is none. |
| `AnnotateText.NegateWraps` | tor/scripts/maint/annotate_ifdef_directives.py:209-231 | An expression without a ) at its end, or with another one, or not of the two forms, is wrapped. |
| `AnnotateText.NegateInside` | tor/scripts/maint/annotate_ifdef_directives.py:209-217 | A negation is taken off, with the white space behind its mark. |
| `AnnotateText.NegateDefinedText` | tor/scripts/maint/annotate_ifdef_directives.py:219-229 | A defined(..) loses its mark or gets one. |
| `AnnotateText.CountCharIs` | tor/scripts/maint/annotate_ifdef_directives.py:79-94 | The count of a character is the number of its places. |
| `Derangements.AttemptSound` | evaluation/deepcoffea/pytorch/data_utils.py:472-482 | A finished attempt is a permutation with no fixed point. |
| `Derangements.DerangementIs` | evaluation/deepcoffea/pytorch/data_utils.py:472-482 | What a derangement is: each number below n once, and none in its own place. |
| `Derangements.EachDerangementOnce` | evaluation/deepcoffea/pytorch/data_utils.py:472-482 | The results are exactly the derangements, and each comes from exactly one sequence of random choices. |
| `Derangements.FinalCheckRedundant` | evaluation/deepcoffea/pytorch/data_utils.py:480-482 | The check of v[0] after the loop always succeeds. |
| `Derangements.OneElementFails` | evaluation/deepcoffea/pytorch/data_utils.py:472-482 | For one element every attempt fails. |
| `Derangements.TryOnce` | evaluation/deepcoffea/pytorch/data_utils.py:473-481 | One attempt, in place. |
| `Derangements.RandomDerangement` | evaluation/deepcoffea/pytorch/data_utils.py:467-482 | The first attempt that succeeds is returned. |
| `Derangements.PairRandom` | evaluation/deepcoffea/pytorch/data_utils.py:501-504 | Every anchor is paired once, with a negative that is not itself, and no negative is used twice. |
| `Derangements.SemiHardNegative` | evaluation/deepcoffea/pytorch/data_utils.py:505-518 | The negative is never the anchor: it is the first try that is not the anchor, an example less similar than the pair plus the margin, and the fallback only when every try hit the anchor. |
| `PacketWindows.PlacePacket` | simulation/datasets/parse_host.py:83-94 | The cursor loop, for any windows and any packet, does what PlaceFrom says. |
| `PacketWindows.HitIs` | simulation/datasets/parse_host.py:83-94 | With sorted windows its early break loses nothing: a related packet goes to the first window from the cursor on that contains it. |
| `PacketWindows.CursorNext` | simulation/datasets/parse_host.py:86-88 | Whatever the order of the packets, the cursor has passed just the windows that, with all before them, were over for some packet. |
| `PacketWindows.ParseInflow` | simulation/datasets/parse_host.py:100-125 | The client's loop, for any windows and any capture, writes what CursorInflow says. |
| `PacketWindows.ClientWrites` | simulation/datasets/parse_host.py:97-125 | What a full scan writes at the client: one line for the first window that contains the time, with the time since its start, and the length with + for packets sent and - for those received; nothing for others. |
| `PacketWindows.InflowAppends` | simulation/datasets/parse_host.py:108-125 | The file is written packet by packet. |
| `PacketWindows.InflowRightIff` | simulation/datasets/parse_host.py:107-125 | For any capture over sorted windows that are not nested, the file is the one full scans would write exactly when no packet lies in a window that was over, with all before it, for packets before. |
| `PacketWindows.NotTooLateIff` | simulation/datasets/parse_host.py:113-115 | Without nested windows this means: in no window that was over for a packet before. |
| `PacketWindows.WindowsSafeIff` | simulation/datasets/parse_host.py:110-125 | The client's cursor is right for all captures in time order exactly when no window is over while an earlier one is not. |
| `PacketWindows.NestMisplaces` | simulation/datasets/parse_host.py:116-121 | For nested windows: two packets at the same time, one of others and one of the client, which is misplaced. |
| `PacketWindows.InOrderInflow` | simulation/datasets/parse_host.py:107-125 | With sorted windows of equal length and packets in time order every packet of the client goes where a full scan would put it. |
| `PacketWindows.ParseOutflow` | simulation/datasets/parse_host.py:56-95 | The server's loop with one cursor for each port, for any windows and any capture; foreign packets only leave errors. |
| `PacketWindows.ServerWrites` | simulation/datasets/parse_host.py:69-94 | At the server: the line is in the file of the server's own port, and the signs are the other way round. |
| `PacketWindows.OutflowAppends` | simulation/datasets/parse_host.py:69-94 | The files are written packet by packet. |
| `PacketWindows.OutflowRightIff` | simulation/datasets/parse_host.py:70-94 | For any capture over sorted windows of any length, the files are those of full scans exactly when no packet comes too late for its port's cursor. |
| `PacketWindows.InOrderOutflow` | simulation/datasets/parse_host.py:70-94 | So they are for a capture in time order. |
| `PacketWindows.OutOfOrderLost` | simulation/datasets/parse_host.py:110-125 | A capture of two packets out of time order, of which the second is lost. |
| `VotePipeline.ThresholdFalls` | evaluation/deepcoffea/pytorch/eval_utils.py:3-11 | A larger seed never raises a threshold. |
| `VotePipeline.ThresholdRank` | evaluation/deepcoffea/pytorch/eval_utils.py:3-11 | The threshold is one of the similarities, and the seed's percentage of all but one of them lies between the number of those above the threshold and the number of those that reach it. |
| `VotePipeline.ThresholdFinder` | evaluation/deepcoffea/pytorch/eval_utils.py:3-11 | The thresholds of all rows, each with that rank. |
| `VotePipeline.PositivesClimb` | evaluation/deepcoffea/pytorch/eval_utils.py:17-46 | A larger seed or a lower vote requirement never lowers TP or FP, for all tables and any number of windows. |
| `VotePipeline.VotesAre` | evaluation/deepcoffea/pytorch/eval_utils.py:18-24 | The votes of a pair are the number of windows in which its similarity reaches the threshold. |
| `VotePipeline.PositivesAre` | evaluation/deepcoffea/pytorch/eval_utils.py:26-46 | TP and FP are the numbers of flows, and of pairs of different flows, with at least as many votes as required. |
| `VotePipeline.Totals` | evaluation/deepcoffea/pytorch/eval_utils.py:26-46 | TP + FN = n and FP + TN = n(n - 1). |
| `VotePipeline.AddVotes` | evaluation/deepcoffea/pytorch/eval_utils.py:18-24 | One window's votes are added to the list, pair by pair. |
| `VotePipeline.CountPairs` | evaluation/deepcoffea/pytorch/eval_utils.py:26-46 | The counting loops. |
| `VotePipeline.Pipeline` | evaluation/deepcoffea/pytorch/eval_utils.py:3-46 | The whole evaluation computes those counts. |

## Left out

- `PageAllocator.Allocator.MallocPages`: linked nodes are records in a map, not heap objects; page pointers are
  named by their index; mmap gives any pages that are nobody's, munmap always succeeds, and there is no
  out-of-memory branch, no alignment request, and no mprotect, madvise or junk filling.
- `PageAllocator.Allocator.FreePages`: a guard page is followed only up to the marks (`StartFree`, `FreeGuard`),
  after which no invariant is left to state; a page without a directory page is not allowed, for which the code
  reads another page's entry unless it is built with MALLOC_EXTRA_SANITY; the record of a swallowed run is freed
  as soon as it is off the list, and where its memory comes from is a parameter.
- `ChunkAllocator.Chunks.FreeBytes`: the pointer is not to a chunk of the page's own header, for which
  `ChunkPages.HeaderFreed` says what happens.
- `Heaps.Heap.Imalloc`: rand(), the places mmap gives and what memory holds there are parameters; px is not
  refilled, so that the memory of the free list's records is not from the same heap; no pointer guards.
- `Heaps.Heap.Ifree`: the pointer is one of the program's; for others see `FreePages` and `FreeBytes`.
- malloc: options, statistics, the recursion guard, realloc, memalign, malloc_brk and last_index.
- `HashTableOps.HashTable.Grow`: the counts are unbounded numbers, while the code has 32 bits; which
  allocations succeed is a parameter; keys stand for the classes of eqfn, and hashfn depends on the key.
- `HashTableOps.HashTable.Insert`: the precondition excludes a size that reaches the last limit, where the code
  reads behind its prime table.
- `HashRuns.Run`: elements are inserted only when nothing matches them, as the header demands.
- `HashIteration.Sweep`: what the caller decides is a function of the visits so far and the current element.
- The hash table without cached hash values, HT_CLEAR, and the find-or-insert macros.
- `LinkSpecifiers.EncodeInto`: the codecs have no null objects other than the nested structures of EXTEND2 and
  NETINFO and the context of AUTHENTICATE, and no failing allocation; setters and getters are left out.
- `ExtendCells.EncodeExtend2Into`: the list of specifiers has no null elements.
- Trunnel formats that repeat these shapes: extend1, channelpadding, circpad, congestion control, flow control,
  extension and SOCKS5.
- `TailQueues.TailQueue.Replace`: TOR_Q_INVALIDATE_ does nothing, as outside of debugging builds; the LIST
  macros are the same link changes without tqh_last, the other queues of the header are not modelled.
- `AnnotateFile.Translate`: lines come classified, with the expression of an #if already stripped of comments;
  the regular expressions that do this are not modelled.
- `CommentedLines.NegateTwiceIff`: white space is that of ASCII.
- `HashPrimes.Ladder`: that the lengths of the table are prime is not proved; nothing depends on it.
- `Derangements.RandomDerangement`: the random choices are given, and so is the number of attempts; that some
  attempt succeeds with probability one is not stated. The final shuffle of the pairs is not modelled.
- `PacketWindows.ParseInflow`: capture files are sequences of packets and output files sequences of lines;
  times are reals, and are not rendered.
- `VotePipeline.Pipeline`: similarities and seeds are reals without rounding; the rates computed from the counts
  are left out, and so are the networks that give the similarities.
