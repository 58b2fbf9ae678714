# HadronUnix: memory and files, verified

A Dafny model of the parts of the HadronUnix kernel that everything else stands on, with the
properties their callers rely on. The modules follow the source files.

- **Page tables** (`PageWords`, `PageNumbers`, `PageTree`, `SelfMap`, `AddressSpace`, `Paging`,
  `PagingRuns`; paging.c). Memory is a map from page addresses to 512 words of 64 bits. The
  specification is the processor's four-level walk (section 4.5 of volume 3A of the Intel SDM),
  written as a function on memory. `Paging.Mmu` does word by word what the source does, once through
  the self-map in slot 511 and once through physical addresses; `AddressSpace` is the tree of tables
  it keeps, and `PagingRuns` what that means for the walk, the counts and the pages.
- **Memory map** (`MemoryMap`, `MemoryMapCode`; memmap.c). `MemoryMapCode.MemMap` edits a fixed
  array in place through all branches of the source; `MemoryMap` says what the list means.
- **Buddy bitmaps** (`BuddyBits`, `BuddyRuns`, `BuddyAlloc`; buddy_alloc.c). `BuddyAlloc.Buddy` sets
  and clears bits of bytes inside an array that stands for physical memory. The other two modules
  work on the same bits as a sequence.
- **Pages** (`PageRegions`, `PageAllocator`; palloc.c). The allocators of all entries of the memory
  map share one memory with the pages they manage.
- **Heap** (`HeapList`, `HeapSegments`, `HeapBlock`, `Heap`; halloc.c). Headers are records at
  offsets of a block, rewritten in place; the segments and the free list are ghost views of them.
  `KernelMemory` joins the heap to the pages and to the page tables.
- **FAT32 reads** (`Fat32`; fat32.c of the boot loader).
- **Reference counts** (`VfsRefs`, `VfsSteps`, `VfsRuns`, `VfsChains`, `Vfs`, `VfsExamples`; vfs.c
  and tmpfs.c). A holder is a link, a mount field, an open file or the root field of a file system;
  the ghost map of holders says what each count has to be. `Vfs.Vfs` rewrites the vnodes in place,
  and each of its methods is shown to be a step of `VfsRuns`, where whole runs are spoken of. A step
  that releases a vnode is any that ends with exact counts; that the recursion of the source ends so
  is the contract of `Vfs.Vfs.Unref`.
- **Tar archives** (`TarText`, `TarTree`, `TarArchives`, `Tar`, `TarWriter`; tarfs.c and kstdio.c).
  `TarWriter` is the writer of the format, and has what is written come back.

## Where the code and its intention differ

The model does what the code does. Where that is not what the code is for, there is a lemma or a
method with an input that shows it, and the exact condition under which it is.

- memmap.c:251 removes from `bafter + 1`, so an entry inside the new range survives. A definition
  leaves the map sorted if and only if it does not start in an entry, end in a gap and cover entries
  in between (`DefinedIsSorted`, `StaleEntryExample`).
- paging.c:251, 262 and 273 hand back a virtual address when the tables are reached through the
  self-map, so the table's page is lost. Pages are conserved if and only if no such unmap empties a
  table (`UnmapConserves`, `RunConserves`). A page mapped and unmapped so loses its tables if and
  only if no neighbour in its page table was mapped (`MapThenUnmapConservesIff`); from a new PML4 on
  that is any page (`LoseTables`).
- paging.c:178 joins the flags to the address unchecked. The walk yields the address asked for if
  and only if the flags stay out of the other bits of the address field (`GrantedAsAsked`,
  `FlagMovesPage`).
- buddy_alloc.c:22-24 sizes a level by the whole buddies only. Then the bit of the partial buddy at
  the end can be the first bit of the next level, or of the data. The bitmaps summarise the used
  blocks over all runs if and only if no level is filled to the byte by whole buddies while a
  partial one follows (`SoundIffFits`, `FitsIff`). With 17 blocks, three calls lead `buddy_find` to
  give out a used block (`GivesOutTwice`).
- palloc.c:22 rounds up on 64 bits; in the last page of the address space that gives 0
  (`FirstPageIsCeiling`, `LastPageWraps`).
- halloc.c:147-155 does not refresh the tag of the segment behind the remainder. The tags stay exact
  if and only if there is no remainder or nothing behind it (`HeapBlock.Block.Split`). `StaleTag`
  reaches such a tag from a new block; it spans two segments, and after two more requests three
  (`WideTag`). `FreeMistagged` is free with a tag that leads to the start of any segment further
  below: the headers it leaves describe a block that keeps the other used segments and has no free
  neighbours if and only if that segment and the one right below are used. From the block of
  `StaleTag`, one free leaves two free neighbours (`FreeLeavesNeighbours`); after two more requests
  and a free, it puts a segment on the free list that covers one in use (`FreeOverlaps`).
  `SplitAndRefresh` is a repair and is not in the source; `Heap.Heap` is stated both with it and
  without.
- halloc.c:20-24 takes as many pages as asked for but maps only the first. Every byte of a new block
  is mapped if and only if the other pages were mapped before (`BlockIsMappedIff`); if none was, if
  and only if the block is one page long, and otherwise the place behind the request, where split
  writes a header if there is a remainder, lies on a page that faults (`NewBlockIsMappedIff`). The
  contracts of `Heap.Heap` speak of the headers as if all pages of the block could be written.
- halloc.c:50 stores sizes in 32 bits. A new block holds the request it is made for unless the
  request is the largest that malloc accepts (`NewBlockFitsIff`, `LargestRequest`).
- fat32.c:142 adds on 32 bits: the read stops at the file's end unless the sum wraps to a number
  inside the file (`ClippedIff`, `SumWraps`). The end mark is compared with 0xFFFFFFFF only, while
  the FAT32 specification has a range of 28-bit marks; a read of a chain long enough for the file
  never depends on the mark, and one beyond its end stops at that mark only (`Fat32.Read`).
- fat32.c:49 does not mask the four reserved bits of an entry. The code follows a chain of the
  format if and only if these bits are clear in the entries along it (`FollowsFormatIff`,
  `ReservedBitSet`).
- vfs.c:68-73 does not look at what is mounted on the root that is mounted. All chains of mounts
  stay finite if and only if the two chains end at different vnodes (`AttachGroundedIff`). Over any
  run all chains stay finite if and only if no mount was made of a root from which mounts already
  led to the mountpoint (`RunGroundedIff`). Two roots mounted on each other close a cycle
  (`MountCycle`).
- vfs.c:78-79 clears the mount field after the release. That writes to a freed vnode if and only if
  the mountpoint can only be reached from the root that is released, through vnodes with one
  reference each (`Vfs.Vfs.Unmount`). A root mounted on a vnode of its own file system, which is
  then destroyed, gets there (`StrayUnmount`).
- vfs.c:171-193 does not release the mount of a vnode that it frees. Over any run, each count is the
  number of links, mounts, open files and root fields that lead to the vnode if and only if no
  operation freed a vnode something was mounted on (`RunCountsIff`), which the counts and links
  before the operation decide (`StepFreesIff`; for an unlink, `UnlinkIsCleanIff`). Mounting on a new
  directory and unlinking it is enough (`LeakByUnlink`).
- tarfs.c:160-163 stops at the first character from the end that is no digit, so a number that ends
  in a space, which the ustar format allows, reads as zero. Digits with spaces behind them are read
  right if and only if there are no spaces or the number is zero (`PaddedFieldIff`,
  `SpaceEndedField`).
- tarfs.c:65-69 fails on an entry whose directory it does not find. An archive becomes a tree if and
  only if the directory of each entry is the root or is listed before the entry, and no directory
  above that is listed once more in between (`BuildIff`); with distinct paths, if and only if
  directories come before what is in them (`DistinctBuildIff`). `RefusedArchive` has a file before
  its directory, and in `HiddenDirectory` a second listing hides one.
- tarfs.c:201 keeps what is left to read in an int: all of it can be read at once if and only if it
  is less than 2 GiB (`ReadCountIff`, `TwoGiBLeft`).

## Model

| member | source | states |
|---|---|---|
| PageWords.IncrementIsExact | kernel/src/memory/paging.c:41-45 | counting up adds one to bits 52..61 and changes no other bit, for counts below 1023 |
| PageWords.DecrementIsExact | kernel/src/memory/paging.c:47-51 | counting down takes one away and changes no other bit, for counts above 0 |
| PageWords.IncrementWraps | kernel/src/memory/paging.c:57-61 | at 1023 the ten bits wrap to 0, so the bound above is needed |
| PageWords.LeafWordFrame | kernel/src/memory/paging.c:177-178 | the word stored leads to the aligned physical address exactly if the flags set no other bit of the address field |
| PageWords.AsAskedDetermines | kernel/src/memory/paging.c:177-178 | the flags outside bits 51:12 with the present bit set, and the flags and the aligned address joined in those bits, leave no bit of the leaf open |
| PageWords.AskedForWriting | kernel/src/main.c:147 | with the writing flag alone the leaf is the aligned physical address plus 3 |
| PageWords.IndicesNamePage | kernel/src/memory/paging.c:84-178 | two addresses have the same four indices exactly if they lie on the same page |
| PageNumbers.AreaSizeIsExact | kernel/src/memory/paging.c:63-67 | the count of pages is the number of the last byte's page minus that of the first, plus one, for any base and any size that does not wrap |
| PageTree.SetLeafKeepsTree | kernel/src/memory/paging.c:167-179 | writing a leaf and adjusting the count above keeps the tree of tables with exact counts; only clearing can leave a table empty, and only that one |
| PageTree.AttachKeepsTree | kernel/src/memory/paging.c:115-135 | hanging in a cleared page adds one table and keeps all counts exact |
| PageTree.DetachKeepsTree | kernel/src/memory/paging.c:245-282 | taking out a table without present entries keeps the tree and its counts |
| PageTree.WalkSeesLeaf | kernel/src/memory/paging.c:69-182 | in such a tree the processor's walk of an address decodes exactly the leaf entry the tree has for it |
| PageTree.LeavesDetermineTree | kernel/src/memory/paging.c:69-282 | two trees without empty tables that have the same leaves, and the same page wherever both have a table, have the same tables and the same words in them |
| SelfMap.InitIsTree | kernel/src/memory/paging.c:13-17 | a cleared page with its own address in slot 511 is a tree with one table and maps itself |
| SelfMap.FractalAccessFindsTable | kernel/src/memory/paging.c:19-39 | walking the computed address lands on the page of the table that holds the entry of an address at a level |
| PageWords.FractalIsCanonical | kernel/src/memory/paging.c:19-39 | the computed addresses are canonical, with bits 63:47 set, and page aligned |
| AddressSpace.EnsureTableSound | kernel/src/memory/paging.c:85-165 | making a missing table keeps the invariant, takes exactly the page given and changes no walk |
| AddressSpace.MapState | kernel/src/memory/paging.c:69-182 | mapping keeps the invariant, updates exactly one leaf, writes only table pages and holds exactly the tables it made |
| AddressSpace.PruneState | kernel/src/memory/paging.c:245-282 | freeing empty tables upwards keeps the invariant and every leaf, and returns exactly the tables it takes out |
| AddressSpace.UnmapState | kernel/src/memory/paging.c:192-287 | unmapping clears exactly one leaf and keeps the invariant; a page is lost exactly if a table is emptied through the self-map |
| Paging.Mmu.constructor | kernel/src/memory/paging.c:13-17 | the first state: one table, mapping itself, no page held |
| Paging.Mmu.EnsureTable | kernel/src/memory/paging.c:85-165 | the stores that make a missing table are one step of the tree, in both modes |
| Paging.Mmu.Map | kernel/src/memory/paging.c:69-182 | all stores of paging_map together are the mapping step of the tree, with a null pml4 and with the root's address alike; the word in the leaf entry is, bit by bit, the flags, the present bit and the aligned physical address |
| Paging.Mmu.Unmap | kernel/src/memory/paging.c:192-287 | all stores of paging_unmap together are the unmapping step of the tree |
| Paging.Mmu.MapMultiple | kernel/src/memory/paging.c:184-190 | the loop maps page after page, as the recursion on the tree says |
| Paging.LoseTables | kernel/src/memory/paging.c:249-282 | with a new PML4, mapping any page and unmapping it through the self-map loses pages |
| PagingRuns.MapTranslates | kernel/src/memory/paging.c:69-182 | afterwards the walk of the page gives the aligned physical address with the flags, and the walk of every other page outside slot 511 is as before |
| PagingRuns.UnmapTranslates | kernel/src/memory/paging.c:192-287 | afterwards the walk of the page faults and every other is as before |
| PagingRuns.GrantedAsAsked | kernel/src/memory/paging.c:177-178 | the walk grants what was asked exactly if the flags stay out of the address field |
| PagingRuns.FlagMovesPage | kernel/src/memory/paging.c:177-178 | bit 12 among the flags turns page 0x2000 into 0x3000 |
| PagingRuns.MapStores | kernel/src/memory/paging.c:167-179 | the word mapping leaves in the leaf entry agrees in every bit with what was asked for |
| PagingRuns.RunStores | kernel/src/memory/paging.c:69-287 | over any run the last operation on a page decides every bit of its leaf entry; without one it stays as it was |
| PagingRuns.InteriorWords | kernel/src/memory/paging.c:13-165 | in every reachable state an interior word is the page below, the bits 7 and the number of entries in use below, or 0, and the last word of the PML4 is its own page and 3 |
| PagingRuns.SelfMapFindsTables | kernel/src/memory/paging.c:13-39 | in every reachable state the computed address of an existing table translates to it, writable and for the kernel only |
| PagingRuns.UnmapModesAgree | kernel/src/memory/paging.c:192-287 | both ways of reaching the tables leave the same memory and the same tree |
| PagingRuns.RunKeeps | kernel/src/memory/paging.c:69-287 | over any run of maps and unmaps the tables stay a tree with exact counts and no empty table, and only table pages are written |
| PagingRuns.RunTranslates | kernel/src/memory/paging.c:69-287 | after any run the walk of a page gives what the last operation on that page said |
| PagingRuns.OccupancyIsExact | kernel/src/memory/paging.c:41-61 | each present interior entry outside slot 511 carries the exact number of present entries below it, between 1 and 512 |
| PagingRuns.TablesAreThoseFound | kernel/src/memory/paging.c:69-287 | the tables of the invariant are exactly those memory leads to from the root |
| PagingRuns.UnmapConserves | kernel/src/memory/paging.c:245-282 | the pages held stay exactly the tables below the root if and only if no table is emptied through the self-map |
| PagingRuns.MapThenUnmapConservesIff | kernel/src/memory/paging.c:69-287 | mapping a page and unmapping it conserves the pages if and only if the PML4 is given or another page of the same page table was mapped |
| PagingRuns.RunConserves | kernel/src/memory/paging.c:69-287 | the same over any run |
| PagingRuns.UnmapUndoesMap | kernel/src/memory/paging.c:69-287 | mapping a page that was not mapped and unmapping it restores every word of every table and gives every page back |
| PagingRuns.ManyTranslate | kernel/src/memory/paging.c:184-190 | after the loop exactly the pages of the range lead to their physical pages |
| PagingRuns.ManyStore | kernel/src/memory/paging.c:184-190 | after the loop the leaf of each page of the range is bit by bit the one asked for, and every other leaf is as before |
| PagingRuns.RegionIsIdentityMapped | kernel/src/memory/paging.c:63-67 | with the count of paging_area_size every byte of the region maps to itself, aligned base or not, and no page that misses it changes |
| MemoryMap.RedefineTypes | kernel/src/memory/memmap.c:134-289 | the new entry gives its type to its addresses and no others |
| MemoryMap.DefinedIsSorted | kernel/src/memory/memmap.c:242-265 | what the code makes of a definition is sorted exactly if the new entry does not start in an entry, end in a gap and cover entries in between |
| MemoryMap.DefinedTypes | kernel/src/memory/memmap.c:134-289 | what the code makes of a definition gives the new type to the addresses of the range and no others, also where it is not sorted |
| MemoryMap.DefinedKeeps | kernel/src/memory/memmap.c:134-289 | the new entry is there, all entries outside its range stay, and everything else is what is left of an entry there was |
| MemoryMap.DirtyList | kernel/src/memory/memmap.c:242-252 | the whole list where line 251 goes wrong: below, the cut entry, the new one, one that it covers, and above |
| MemoryMap.StaleEntryExample | kernel/src/memory/memmap.c:250-252 | two entries and a definition after which the map is not sorted |
| MemoryMap.LastDefinitionWins | kernel/src/memory/memmap.c:134-289 | after k definitions that avoid that branch, each address has the type of the last that covers it, in at most 2k-1 sorted entries |
| MemoryMap.LastRedefinitionWins | kernel/src/memory/memmap.c:134-289 | with line 251 repaired the last definition wins over every run |
| MemoryMap.CleanNeedsNoRepair | kernel/src/memory/memmap.c:242-265 | runs that avoid the branch give the same map with and without the repair |
| MemoryMap.AggregatedMeansTheSame | kernel/src/memory/memmap.c:291-307 | merging keeps the type at every address |
| MemoryMap.AggregatedIsNormal | kernel/src/memory/memmap.c:291-307 | no two touching neighbours of the result have the same type |
| MemoryMap.NormalIsUnique | kernel/src/memory/memmap.c:291-307 | sorted lists without such neighbours that mean the same are the same |
| MemoryMap.AggregatedIsShortest | kernel/src/memory/memmap.c:291-307 | no sorted list of the same meaning is shorter |
| MemoryMap.AggregatedTwice | kernel/src/memory/memmap.c:291-307 | merging again changes nothing |
| MemoryMapCode.MemMap.Insert | kernel/src/memory/memmap.c:15-21 | shifting the array up and writing is insertion into the list |
| MemoryMapCode.MemMap.Remove | kernel/src/memory/memmap.c:23-28 | shifting down is removal of the places first to last |
| MemoryMapCode.MemMap.Merge | kernel/src/memory/memmap.c:30-39 | the places become one entry from the first base to the last end |
| MemoryMapCode.MemMap.Split | kernel/src/memory/memmap.c:41-70 | an entry becomes what lies below and above the hole, and disappears if nothing does |
| MemoryMapCode.MemMap.CutBottom | kernel/src/memory/memmap.c:72-83 | takes bytes off the low end, and the entry if none are left |
| MemoryMapCode.MemMap.CutTop | kernel/src/memory/memmap.c:85-95 | takes bytes off the high end, and the entry if none are left |
| MemoryMapCode.MemMap.AddressInfo | kernel/src/memory/memmap.c:97-132 | finds the entry of an address, the last one before it and the first one after it |
| MemoryMapCode.MemMap.Define | kernel/src/memory/memmap.c:134-289 | the array edited in place holds what the list function says, in every branch, and is sorted exactly outside the one of line 251; in that branch too, exactly the addresses of the range change their type and all entries outside it stay |
| MemoryMapCode.MemMap.Aggregate | kernel/src/memory/memmap.c:291-307 | the merging loop computes the normal form in place |
| BuddyBits.FitsIff | kernel/src/memory/buddy_alloc.c:18-24 | every block's buddy has a bit inside its level exactly if no order has a partial buddy behind a multiple of eight whole ones |
| BuddyBits.PredictedIsMonotone | kernel/src/memory/buddy_alloc.c:26-37 | more blocks never need less metadata |
| BuddyBits.PredictedOfSeventeen | kernel/src/memory/buddy_alloc.c:18-37 | 17 blocks need 111 bytes |
| BuddyBits.NoBlocksNeedTooMuch | kernel/src/memory/buddy_alloc.c:22-24 | for no blocks the level size wraps to 2^61 bytes |
| BuddyBits.InUseMeans | kernel/src/memory/buddy_alloc.c:108-145 | buddy i of order o is in use exactly if a block from i*2^o up to (i+1)*2^o is used |
| BuddyBits.AllocIsUnion | kernel/src/memory/buddy_alloc.c:108-119 | marking a range keeps the summary for the union of the used blocks and the range, and changes no bit outside the bitmaps |
| BuddyBits.FreeIsDifference | kernel/src/memory/buddy_alloc.c:122-145 | clearing a range keeps the summary for the difference, and changes no bit outside the bitmaps |
| BuddyBits.FindIsSound | kernel/src/memory/buddy_alloc.c:60-106 | a found offset starts a buddy, its range ends with the last block or before, and no block of it is used |
| BuddyBits.FindIsExact | kernel/src/memory/buddy_alloc.c:60-106 | the search fails exactly if a used block lies in each run of enough whole buddies |
| BuddyBits.FailsIff | kernel/src/memory/buddy_alloc.c:60-106 | the search fails exactly if each whole buddy that is long enough has a used block and, where none is, each row of as many of the largest as it takes |
| BuddyBits.OneHasRoomIff | kernel/src/memory/buddy_alloc.c:60-106 | there is no room for one block exactly if all are used |
| BuddyBits.PossibleOrderIs | kernel/src/memory/buddy_alloc.c:8-16 | the order of a bitmap is the largest with a whole buddy, up to the limit |
| BuddyRuns.RunKeepsSummary | kernel/src/memory/buddy_alloc.c:108-145 | over any run of in-range calls each bit of each level says whether its buddy is in use |
| BuddyRuns.SoundIffFits | kernel/src/memory/buddy_alloc.c:18-145 | all runs from empty bitmaps keep the summary and stay inside the bitmaps exactly if the levels fit |
| BuddyRuns.FreeUndoesAlloc | kernel/src/memory/buddy_alloc.c:108-145 | freeing a range just taken from free blocks restores every bit of memory |
| BuddyRuns.GivesOutTwice | kernel/src/memory/buddy_alloc.c:18-145 | with 17 blocks, taking 16 and 0 and freeing 16 makes the search for four blocks answer 0, which is used |
| BuddyAlloc.GetPossibleOrder | kernel/src/memory/buddy_alloc.c:8-16 | the shifting loop finds the largest order with a whole buddy, at most the given one |
| BuddyAlloc.GetSize | kernel/src/memory/buddy_alloc.c:26-37 | the summing loop computes the predicted size |
| BuddyAlloc.Buddy.constructor | kernel/src/memory/buddy_alloc.c:39-58 | the levels lie one behind the other from the header on, all their bits are cleared and no other byte is written |
| BuddyAlloc.Buddy.Find | kernel/src/memory/buddy_alloc.c:60-106 | the answer is the first run of free whole buddies of the order searched; it fails exactly if a used block lies in each whole buddy that is long enough and, where none is, in each row of enough of the largest; a range it finds is inside and free |
| BuddyAlloc.Buddy.Alloc | kernel/src/memory/buddy_alloc.c:108-119 | the byte loops mark exactly the bits of the range at every order, whether or not the levels fit |
| BuddyAlloc.Buddy.Free | kernel/src/memory/buddy_alloc.c:122-145 | the byte loops clear the range and then each buddy whose halves are both clear, whether or not the levels fit |
| PageRegions.FirstPageIsCeiling | kernel/src/memory/palloc.c:22 | the first page is the next page boundary exactly if the base is not inside the last page of the address space |
| PageRegions.LastPageWraps | kernel/src/memory/palloc.c:22 | the boundary above the last byte of the address space is taken for 0 |
| PageRegions.RegionIsInside | kernel/src/memory/palloc.c:10-44 | the bitmaps end before the data begins, both lie inside the entry, and at least one page is left |
| PageRegions.RegionIff | kernel/src/memory/palloc.c:10-44 | an entry gets a region exactly if it has two whole pages; bitmaps and blocks are then all its whole pages, with as few for the bitmaps as hold them |
| PageRegions.TooShort | kernel/src/memory/palloc.c:21-28 | an entry shorter than a page is skipped |
| PageRegions.OutstandingRunsAreSafe | kernel/src/memory/palloc.c:61-98 | after any history, outstanding runs are page aligned, inside one entry, clear of the bitmaps of all entries, and pairwise disjoint |
| PageRegions.HistoryAccounts | kernel/src/memory/palloc.c:61-98 | after any history the used blocks are exactly those of the outstanding runs |
| PageRegions.FreeIsExact | kernel/src/memory/palloc.c:83-98 | a free makes available the blocks of its own run, all of which were used, and no others |
| PageRegions.OneIsRefusedIff | kernel/src/memory/palloc.c:61-81 | one page is refused exactly if every block of every allocatable entry is used |
| PageRegions.WritesInRunAreHarmless | kernel/src/memory/palloc.c:61-81 | whatever an owner writes into its run, all bitmaps still say the truth |
| PageAllocator.PageAllocator.Init | kernel/src/memory/palloc.c:10-44 | exactly the free entries within bounds that have two whole pages become allocatable with no page used, and all others stay as they were |
| PageAllocator.PageAllocator.Alloc | kernel/src/memory/palloc.c:61-81 | gives a run of free pages from the first entry with room and marks exactly it, or fails if no entry has room; one page is refused exactly if all pages are used |
| PageAllocator.PageAllocator.Free | kernel/src/memory/palloc.c:83-98 | finds the entry of the run by its address and frees exactly the run there; an address in no allocatable entry changes no bit |
| KernelMemory.SelfMapIsNotManaged | kernel/src/memory/paging.c:251-273 | the address of a table in the self-map lies in no entry of the memory map, so that palloc_free ignores it |
| HeapList.InsertIsSound | kernel/src/memory/halloc.c:65-110 | the link writes of an insertion leave a doubly linked list in descending order with one element more, and touch no header outside it |
| HeapList.TakeIsSound | kernel/src/memory/halloc.c:112-126 | the link writes of a removal leave a doubly linked descending list with one element less |
| HeapList.HeadIsLargest | kernel/src/memory/halloc.c:128-134 | no listed segment is larger than the head |
| HeapSegments.SegmentsApart | kernel/src/memory/halloc.c:41-56 | segments that tile a block do not overlap and end in the block |
| HeapSegments.CarvedKeeps | kernel/src/memory/halloc.c:136-164 | cutting a free segment keeps the tiling, leaves no free neighbours and adds one to the used segments |
| HeapSegments.CarvedTakes | kernel/src/memory/halloc.c:136-164 | the piece cut off is at most 20 bytes longer than asked for; of a longer segment the rest is free right behind it, and all other segments stay |
| HeapSegments.CoalescedKeeps | kernel/src/memory/halloc.c:221-252 | joining a freed segment with its free neighbours keeps the tiling, leaves no free neighbours and takes one from the used segments |
| HeapSegments.CoalescedGivesBack | kernel/src/memory/halloc.c:221-252 | the segments in use afterwards are those before but the one freed |
| HeapBlock.Block.constructor | kernel/src/memory/halloc.c:41-56 | one free segment from the header to the last byte but one, in the list, with an exact tag |
| HeapBlock.Block.Insert | kernel/src/memory/halloc.c:65-110 | the walk down the list links the segment in behind all that are larger and before the first that is not larger |
| HeapBlock.Block.Take | kernel/src/memory/halloc.c:112-126 | the segment is out of the list and its links are cleared |
| HeapBlock.Block.Split | kernel/src/memory/halloc.c:136-164 | succeeds exactly if the head is long enough; the piece taken is at most 20 bytes longer than asked for, the rest of a longer segment is free right behind it and all others stay; keeps all invariants of the block and the tags of the segments there were, and keeps all tags exact exactly if there is no remainder or nothing behind it |
| HeapBlock.Block.SplitAndRefresh | kernel/src/memory/halloc.c:136-164 | the repaired split, which takes the same piece and keeps the tags exact as well |
| HeapBlock.Block.Free | kernel/src/memory/halloc.c:215-255 | with an exact tag on the freed segment, back and front collation keep all invariants, all tags if they were exact, and exactly the other used segments |
| HeapBlock.Block.FreeMistagged | kernel/src/memory/halloc.c:215-255 | with a tag that leads to a segment further below: headers that describe a tiled, settled block with all other used segments are left if and only if that segment and the one right below are used; if only the former is, two free neighbours remain, and if it is not, a free segment covers a used one |
| HeapBlock.TilingIsUnique | kernel/src/memory/halloc.c:41-56 | the headers of a block describe one list of segments at most |
| HeapBlock.OverlapsIsNotDescribed | kernel/src/memory/halloc.c:225-234 | once back collation has joined a segment further below, no tiling keeps the used segment above it |
| Heap.NewBlockFitsIff | kernel/src/memory/halloc.c:58-63 | the first segment of a new block holds the request exactly if the request is below the largest malloc accepts |
| Heap.BlocksForIs | kernel/src/memory/halloc.c:7-8 | a block has as many pages as the request and the block header fill, and one more if they fill them to the byte |
| Heap.LargestRequest | kernel/src/memory/halloc.c:50-63 | the block made for the largest request has 4071 bytes free |
| Heap.NewBlockIsShortIff | kernel/src/memory/halloc.c:7-8 | the length of a new block is a 32-bit number exactly if the request ends before its last page |
| Heap.HeadDecides | kernel/src/memory/halloc.c:166-174 | a block has a free segment long enough exactly if the head of its list is |
| Heap.Heap.March | kernel/src/memory/halloc.c:166-190 | takes from the first block of the chain that has room; makes a new block exactly if none has, and the new one holds the request; blocks stay apart |
| Heap.Heap.Malloc | kernel/src/memory/halloc.c:265-288 | returns null exactly for size 0 and sizes above the limit; else a used segment of at least that size and at most a header more, cut from the largest free segment of the first block with room, what is left of it being free right behind and all other segments as they were; a block is made exactly if none has room, at the address given and as long as asked for, and all blocks stay apart |
| Heap.Heap.Free | kernel/src/memory/halloc.c:196-255 | finds the block by the pointer and frees exactly the segment behind whose header it points; all others in use stay |
| Heap.AreasApart | kernel/src/memory/halloc.c:192-194 | over any run the areas of two segments do not overlap, in one block or in two |
| KernelMemory.GrantedIsClear | kernel/src/memory/halloc.c:20-24 | after any history of palloc, the pages it gives out next are clear of all blocks of the heap, which is what malloc needs |
| KernelMemory.BlockIsMappedIff | kernel/src/memory/halloc.c:20-24 | every byte of a new block is mapped to itself and writable if and only if all its pages but the first were before |
| KernelMemory.NewBlockIsMappedIff | kernel/src/memory/halloc.c:20-63 | with pages not mapped before, every byte is mapped if and only if the block is one page long; else the place of the header behind the request faults |
| Heap.StaleTag | kernel/src/memory/halloc.c:136-164 | three splits and a free from a new block end in a used segment whose tag spans the two below it |
| Heap.FreeLeavesNeighbours | kernel/src/memory/halloc.c:225-252 | that segment freed, two neighbours are free |
| Heap.FreeOverlaps | kernel/src/memory/halloc.c:225-252 | two requests and a free later, freeing it puts 2000 bytes on the list that cover a segment in use |
| Heap.WideTag | kernel/src/memory/halloc.c:136-164 | five requests and a free from a new block leave a used segment whose tag spans three |
| Fat32.ClippedIff | boot/stage2/src/fat32/fat32.c:142-144 | the count stops at the file's end exactly if the 32-bit sum does not wrap into the file |
| Fat32.SumWraps | boot/stage2/src/fat32/fat32.c:142-144 | a count of 2^32 - 10 from byte 50 of a file of 100 is not clipped |
| Fat32.SkipClusters | boot/stage2/src/fat32/fat32.c:131-137 | along a chain the loop arrives at the cluster of that number, or stays at the end mark |
| Fat32.ClusterIsAt | boot/stage2/src/fat32/fat32.c:35-37 | cluster c is the sectors from clusters_lba_begin + (c - 2) * sectors_per_cluster on, as long as that is a 32-bit number |
| Fat32.ClustersApart | boot/stage2/src/fat32/fat32.c:35-37 | no two such clusters have a byte in common |
| Fat32.TableWord | boot/stage2/src/fat32/fat32.c:39-51 | the entry of cluster c is the little-endian word at byte 512 * fat_lba_begin + 4 * c of the disk, or the reader's error if that sector is not there |
| Fat32.LaidIsChain | boot/stage2/src/fat32/fat32.c:39-51 | clusters on the disk that the words of the table lead through are a chain of the code |
| Fat32.ContentsAt | boot/stage2/src/fat32/fat32.c:155-166 | byte k of a file is on the disk in cluster number k / n of the chain, n being the length of a cluster |
| Fat32.RowIsOnePiece | boot/stage2/src/fat32/fat32.c:155-166 | the file in clusters behind each other is one piece of the disk |
| Fat32.FollowsFormatIff | boot/stage2/src/fat32/fat32.c:40-51 | the unmasked entries lead along a chain of 28-bit entries if and only if the reserved bits along it are clear |
| Fat32.ReservedBitSet | boot/stage2/src/fat32/fat32.c:40-51 | a table with a reserved bit set whose chain the code leaves |
| Fat32.Read | boot/stage2/src/fat32/fat32.c:139-168 | on a chain long enough for the file the buffer gets exactly the bytes from offset to the end of the read, the result is their number and the rest of the buffer stays; these bytes are also named by their places on the disk, one piece of it for clusters behind each other; along a chain that stops early, what there is before is read, and the result is its length at the end mark and the reader's error where the next cluster is not on the disk |
| Fat32.AdjacentReads | boot/stage2/src/fat32/fat32.c:139-168 | two adjacent reads concatenate to one |
| Fat32.ReadTwice | boot/stage2/src/fat32/fat32.c:139-168 | two calls for adjacent ranges fill two buffers with what one call for both returns, unless a sum wraps into the file |
| VfsSteps.CountIsReferences | kernel/src/vfs/vfs.c:162-193 | a count is the number of links, mounts, open files and root fields that refer to the vnode, and of mounts that leaked |
| VfsRuns.CountedIffNoneLeaked | kernel/src/vfs/vfs.c:162-193 | all counts are the links, mounts, open files and root fields there are if and only if no mount leaked |
| VfsRuns.FreedIff | kernel/src/vfs/vfs.c:171-193 | a release frees exactly the vnodes that are reached from the released one through links and vnodes with one reference each |
| VfsRuns.ReleaseOfShared | kernel/src/vfs/vfs.c:171-173 | a release of a vnode with other references takes one from its count and changes nothing else |
| VfsRuns.ReleaseLeaksOf | kernel/src/vfs/vfs.c:171-193 | the mounts of a vnode that a release leaks are those on the vnodes it frees |
| VfsRuns.StepKeeps | kernel/src/vfs/vfs.c:68-83 | every operation keeps all counts exact and the links trees |
| VfsRuns.StepFreesIff | kernel/src/vfs/vfs.c:171-193 | which vnodes an operation frees is decided by counts and links before it |
| VfsRuns.StepLeaksIff | kernel/src/vfs/vfs.c:171-193 | an operation leaks no mount if and only if it frees no vnode something is mounted on, but for the mountpoint of an unmount; leaks never go away |
| VfsRuns.UnlinkIsCleanIff | kernel/src/vfs/tmpfs.c:80-98 | an unlink frees its vnode alone, exactly if that has one reference, and leaks exactly if something is mounted there as well |
| VfsRuns.UnlinkLeaves | kernel/src/vfs/tmpfs.c:80-98 | an unlink leaves the list without that link, every other list, mount and driver, and every count but that of the vnode, which is one less or gone |
| VfsRuns.RunKeeps | kernel/src/vfs/vfs.c:7-193 | over any run from vfs_init on all counts are exact; no mount leaked if and only if every operation was clean |
| VfsRuns.RunCountsIff | kernel/src/vfs/vfs.c:162-193 | over any run each count is the number of links, mounts, open files and root fields if and only if no operation freed a vnode something was mounted on |
| VfsExamples.LeakByUnlink | kernel/src/vfs/tmpfs.c:80-98 | five calls from vfs_init on leak a mount and leave a count above the references there are |
| VfsSteps.NothingInUseIsFreed | kernel/src/vfs/vfs.c:171-203 | vnodes of open files, links, mounts and roots exist, and a driver's count is its vnodes and one for its file system |
| VfsSteps.AttachGroundedIff | kernel/src/vfs/vfs.c:68-73 | mounting leaves every chain of mounts finite exactly if the chain of the root ends at another vnode |
| VfsChains.StepGroundedIff | kernel/src/vfs/vfs.c:68-83 | an operation leaves all chains of mounts finite if and only if it is no mount of a root from which mounts lead to the mountpoint |
| VfsChains.RunGroundedIff | kernel/src/vfs/vfs.c:7-83 | over any run from vfs_init on all chains of mounts stay finite if and only if no such mount was made |
| VfsExamples.MountCycle | kernel/src/vfs/vfs.c:68-73 | the roots of two file systems mounted on each other close a chain of mounts |
| Vfs.Vfs.constructor | kernel/src/vfs/vfs.c:7-10 | the first state has one vnode that nothing counts |
| Vfs.Vfs.Unref | kernel/src/vfs/vfs.c:171-193 | releases recursively and terminates; all counts are exact again, only links of other vnodes of the same driver have let go, and every vnode that is left keeps its links, mount and driver |
| Vfs.Vfs.Open | kernel/src/vfs/tmpfs.c:100-107 | adds one open file that holds the vnode, whose count is one higher; nothing else changes |
| Vfs.Vfs.OpenMounted | kernel/src/vfs/vfs.c:85-88 | opens the vnode at the end of the chain of mounts |
| Vfs.Vfs.Close | kernel/src/vfs/tmpfs.c:179-184 | the file lets go and its vnode is released if it was the last |
| Vfs.Vfs.Create | kernel/src/vfs/tmpfs.c:109-134 | adds a vnode with one reference and the link that holds it, in front of the parent's list; no other vnode changes |
| Vfs.Vfs.Unlink | kernel/src/vfs/tmpfs.c:80-98 | takes out the first link of the name and releases its vnode, which goes if that was its only reference; all other links, mounts and counts stay; refuses exactly if there is none or the vnode has links |
| Vfs.Vfs.CreateFs | kernel/src/vfs/tmpfs.c:20-48 | adds a driver and a root vnode with one count each for its owner |
| Vfs.Vfs.Destroy | kernel/src/vfs/tmpfs.c:50-53 | lets go of the root, which is released, then the driver, which goes with its last vnode |
| Vfs.Vfs.Walk | kernel/src/vfs/vfs.c:12-30 | finds the first link of the name at the end of the chain of mounts |
| Vfs.Vfs.Mount | kernel/src/vfs/vfs.c:68-73 | mounts at the end of the chain unless the root is on it and counts the root once more, all other vnodes staying as they were; says exactly when chains stay finite |
| Vfs.Vfs.Unmount | kernel/src/vfs/vfs.c:75-83 | releases the last mount of the chain and nothing else, with all counts exact; refuses exactly if nothing is mounted; says exactly when it writes to a freed mountpoint |
| VfsExamples.StrayUnmount | kernel/src/vfs/vfs.c:75-83 | four calls from vfs_init on, and the unmount writes to a freed vnode |
| TarText.OctalRoundTrip | kernel/src/vfs/tarfs.c:156-166 | reading inverts printing with leading zeros |
| TarText.FieldRoundTrip | kernel/src/vfs/tarfs.c:156-166 | a field written so is read back, whether a NUL or the end of the field follows |
| TarText.PaddedFieldIff | kernel/src/vfs/tarfs.c:156-166 | digits with spaces behind them are read right exactly if there are no spaces or the number is zero |
| TarText.SpaceEndedField | kernel/src/vfs/tarfs.c:160-163 | eleven digits for 15 and a space read as 0 |
| TarText.ParseOctal | kernel/src/vfs/tarfs.c:156-166 | the loop from the last character back computes the value of the last digits, below 8 to the power of the field's length |
| TarTree.RoundedUpIs | kernel/src/vfs/tarfs.c:97-98 | the size rounds up to blocks of 512, and 0 to 0 although the subtraction wraps |
| TarTree.ReadingsAgree | kernel/src/vfs/tarfs.c:51-81 | tarfs_create and kfopen take the same parts from a path exactly as long as none is empty |
| TarTree.WalkIff | kernel/src/vfs/vfs.c:151-160 | a path leads to the node whose path it is and to nothing else |
| TarArchives.BuildIff | kernel/src/vfs/tarfs.c:39-99 | an archive becomes a tree if and only if the directory of each entry is the root or listed before, and not hidden by a second listing of a directory above |
| TarArchives.OpensIff | kernel/src/vfs/tarfs.c:39-102 | whatever the archive, a path opens the last entry that lists it and is not hidden, with its size, place and kind, and nothing if there is none |
| TarArchives.DistinctBuildIff | kernel/src/vfs/tarfs.c:65-71 | with distinct paths an archive becomes a tree if and only if each directory is listed before what is in it |
| TarArchives.LookupsAgree | kernel/src/vfs/tarfs.c:40-102 | an archive with distinct paths of non-empty parts, directories first, becomes a tree in which the path of each entry opens the node with its size and place, and no other path does |
| TarArchives.HiddenDirectory | kernel/src/vfs/tarfs.c:65-71 | a, a/b, a and a/b/c: directories come first and the archive is refused all the same |
| Tar.TarFs.FindParent | kernel/src/vfs/tarfs.c:51-81 | the pointer loop finds the node of the path without its last part, and that part |
| Tar.TarFs.Load | kernel/src/vfs/tarfs.c:39-101 | terminates and builds the tree of the entries; fails exactly if the directory of an entry is not listed before it, or hidden again by then; with distinct paths, exactly if an entry comes before its directory |
| Tar.RefusedArchive | kernel/src/vfs/tarfs.c:65-71 | two headers, of a/b and of a, are refused |
| Tar.TarFs.Open | kernel/src/vfs/kstdio.c:7-41 | the pointer loop walks the non-empty parts of the path |
| Tar.TarFs.Read | kernel/src/vfs/tarfs.c:198-207 | copies the next bytes of the entry and advances by as many |
| Tar.TarFs.ReadMany | kernel/src/vfs/tarfs.c:198-207 | reads one after the other return the next bytes of the entry, as many as asked for together or all that are left |
| Tar.EntriesInside | kernel/src/vfs/tarfs.c:90-98 | the bytes of an entry end before the next header, and those of the last one where the loop stops |
| Tar.ReadEntry | kernel/src/vfs/tarfs.c:39-207 | from the archive to the bytes: the path of an entry opened and read in pieces gives the bytes of the entry |
| TarWriter.PathsAreNames | kernel/src/vfs/tarfs.c:51-81 | names joined by separators are taken apart again by tarfs_create and by kfopen, with a separator in front or at the end as well |
| TarWriter.HeaderIsRead | kernel/src/vfs/tarfs.c:129-154 | of a header with the name in 100 bytes, three fields of 8, the size in 11 octal digits, the name and the size are read back |
| TarWriter.KindIsRead | kernel/src/vfs/tarfs.c:143-145 | only the digit 5 in byte 156 makes a directory, whatever follows it |
| TarWriter.WrittenIsFound | kernel/src/vfs/tarfs.c:39-102 | files written under distinct names become a tree exactly if directories come first; then each list of names leads to its file and its content, and to nothing if there is none |
| TarWriter.WriteThenRead | kernel/src/vfs/tarfs.c:39-207 | an archive written as headers and contents padded to blocks is loaded exactly if directories come first; opening names and reading gives the content written under them, and fails exactly if there is none |
| Tar.ReadCountIff | kernel/src/vfs/tarfs.c:201-203 | all that is left can be read at once exactly if it is less than 2 GiB |
| Tar.TwoGiBLeft | kernel/src/vfs/tarfs.c:201-203 | with 2 GiB left no read returns anything |

## Left out

- Paging.Mmu.Map: the pages palloc_alloc returns are parameters; a failed allocation, which paging.c does not check, is not modelled. Loops of paging_map_multiple read the count as a number.
- PagingRuns.MapTranslates: addresses in slot 511, which are the self-map's own, are excluded.
- MemoryMapCode.MemMap.Define: assumes room for the two entries a definition can add, which the source does not check, sizes of at least 1 and no wrap of the end address.
- BuddyAlloc.Buddy.Alloc: ranges are not empty and below the last block, as palloc.c calls it; an empty range would still touch higher orders.
- BuddyAlloc.Buddy.constructor: the fields of the header are fields of the object; the memory they take is reserved but not written byte by byte.
- PageAllocator.PageAllocator.Init: needs bitmaps whose levels fit in the regions it makes (`BuddyRuns.SoundIffFits` says why), and leaves out the mapping of the bitmaps.
- PageAllocator.PageAllocator.Free: of an address in an allocatable entry only where it is that of a run; the source does not check it, and any other would clear bits of other blocks.
- Heap.Heap.Malloc: the address of a new block is a parameter, which has to be clear of the blocks there are (`KernelMemory.GrantedIsClear`), and the sizes of the last page below the limit, where lengths do not fit in 32 bits, are excluded.
- Heap.Heap.Free: without the repair the tag of the freed segment has to be exact; `HeapBlock.Block.FreeMistagged` is the other case. The release of a block whose last segment was freed, and halloc.c:260 which drops the chain behind it, are not modelled.
- Fat32.Read: the name lookup, the parsing of entries and the fields fat32_init reads play no part; a failed read is returned as the source does, also where it takes an error for a cluster. A read that starts beyond a cluster off the disk is not described.
- HeapBlock.Block.FreeMistagged: of a tag that leads to the start of a segment; one that leads to a header which a join has since swallowed reads bytes that are no header any more. Where front collation takes bytes of the caller for the header of a free segment, it goes on with links the caller wrote; the model stops there.
- Vfs.Vfs.Unmount: the write to a freed mountpoint is reported and not carried out.
- Vfs.Vfs.Unlink: the driver's own; the second removal in vfs_unlink (vfs.c:46-63) takes out a link even where the driver refused.
- Vfs.Vfs.Create: child lists are sequences of links with names of their own, not chains of pointers; names of allocations are not used again.
- Tar.TarFs.Load: bytes behind the archive read as zero, name buffers are as long as needed, and the mode, owner and time fields are not kept. A name of 100 characters runs into the next field in the source as in the model.
- TarText.ParseOctal: a digit is added rather than joined in with a bitwise or, which is the same because lower digits never reach its bits.
- Assembly, TLB invalidation, loading CR3, device access and screen output.
- paging_get_mapping (paging.c:296-342), which returns nothing; the walk takes its place.
- The map_tables and unmap_tables variants of paging_map and paging_unmap, which no kernel code uses, and paging_unmap_multiple, which only repeats paging_unmap.
- realloc of an existing area, the debug dumps, tmpfs contents and positions, seek and tell.
- devfs, whose reference pattern is that of tmpfs.
