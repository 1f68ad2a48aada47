# Verification of the DreamOS64 kernel core

DreamOS64 is a small x86_64 kernel. This project models its memory management, its scheduler and a
few smaller algorithms in Dafny and proves what they keep, over all inputs and over whole runs.

Each part has a specification made of functions on values (a page table tree with a supply of
frames, a bitmap of flags, a list of heap nodes, a scheduler state, a queue of requests, a picture)
and, where the C code updates things in place, a class or method with loops that is proved equal to
it. The laws are lemmas about the specification; runs are lists of operations. Where a law fails, a
lemma gives the input and another one the exact condition under which it holds.

| file | part of the kernel |
|---|---|
| Bits.dfy | words as natural numbers |
| PageTable.dfy, Addresses.dfy, Mapping.dfy, TableCount.dfy, PageMapper.dfy | page table tree, table indices, mapping and unmapping through the direct map, how many tables that takes |
| RecursiveMapper.dfy, RecursiveLookup.dfy | the same through recursive slot 510 |
| AddressSpaces.dfy, DirectMap.dfy, Permissions.dfy | roots of tasks, direct map of physical memory, who may use a page |
| Bitmap.dfy, BitmapRuns.dfy, Pmm.dfy, FrameRuns.dfy, FrameSupply.dfy | physical frames, runs of allocations, the frames that page tables are made of |
| KernelHeap.dfy, HeapNodes.dfy, HeapRuns.dfy, HeapBytes.dfy | kernel heap, blocks in use and free bytes over runs |
| Scheduler.dfy, Fairness.dfy, ThreadLives.dfy, ThreadList.dfy | scheduler |
| Backing.dfy, RangeBacking.dfy, Vmm.dfy, VmmRanges.dfy, VmmBytes.dfy, VmmResults.dfy, VmmAccess.dfy, VmmInfo.dfy, TaskRanges.dfy | virtual range allocation |
| Keyboard.dfy, KeyboardDriver.dfy | pending keyboard reads |
| Windows.dfy, Scroll.dfy | scrolling around a pinned area |
| Octal.dfy, Ustar.dfy | USTAR archives |
| Numbers.dfy | number printers |

Both page sizes are covered: `depth` is 4 with 4 KiB pages (SMALL_PAGES 1) and 3 with 2 MiB pages
(SMALL_PAGES 0). A tree is well formed if every table frame carries one label, its parent and the
indices that lead to it, and every present entry points to the table with that label; roots may share
higher-half subtrees. A root entry that two roots share is the reason why a kernel mapping shows in
both.

`dafny verify dfyconfig.toml` checks the whole project.

## Model

| member | source | states |
|---|---|---|
| `Addresses.IndicesSpellPage` | src/include/kernel/arch/x86_64/vm.h:8-11 | The page number of an address, modulo the address width, is the radix-512 number that its table indices spell |
| `Addresses.PagePathInjective` | src/include/kernel/arch/x86_64/vm.h:8-11 | Two page-aligned canonical addresses have the same indices exactly if they are equal |
| `Addresses.EntriesOfAddress` | src/include/kernel/arch/x86_64/vm.h:8-13 | An address put together with ENTRIES_TO_ADDRESS and the sign extension has exactly those indices, at every offset of its page |
| `Addresses.HalfOfAddress` | src/kernel/arch/x86_64/system/vm.c:101-106 | Bit 62 of a canonical address, its first index and its position agree on which half it lies in |
| `PageTable.LeafEntryFields` | src/kernel/arch/x86_64/mem/vmm_mapping.c:77-87 | The word written for a page decodes to its frame, is present exactly if the flags say so, and is a huge-page entry at depth 3 |
| `PageTable.TableEntryFields` | src/kernel/arch/x86_64/mem/vmm_mapping.c:42-74 | The word written for a new table decodes to that table and is present |
| `PageTable.LinkKeepsWellFormed` | src/kernel/arch/x86_64/mem/vmm_mapping.c:42-74 | Linking a zeroed table below an absent entry keeps the tree shape: every table frame is linked from one place only, and is distinct from all others |
| `PageTable.LinkKeepsWalks` | src/kernel/arch/x86_64/mem/vmm_mapping.c:42-74 | Linking an empty table changes no translation of any root |
| `PageTable.LeafWriteWalks` | src/kernel/arch/x86_64/mem/vmm_mapping.c:77-87 | Writing a leaf entry changes exactly the translations whose walk ends in that entry |
| `Mapping.MapKeepsValid` | src/kernel/arch/x86_64/mem/vmm_mapping.c:9-92 | Mapping keeps the tree well formed, keeps every existing table and every present entry, and leaves a complete path to the leaf |
| `Mapping.MapRefinesUpdate` | src/kernel/arch/x86_64/mem/vmm_mapping.c:9-92 | Mapping an unmapped page of a root adds exactly that page to the translations of that root and of the roots that share its entry; mapping a mapped page, and every other page of every root, changes nothing |
| `Mapping.MapOfMappedIsNoop` | src/kernel/arch/x86_64/mem/vmm_mapping.c:64-92 | Mapping a page that is already mapped leaves memory and the frame supply as they are |
| `Mapping.MapTakesFromSupply` | src/kernel/arch/x86_64/mem/vmm_mapping.c:42-74 | New tables are taken from the front of the frame supply, exactly one for each table that is missing on the path |
| `Mapping.UnmapRefinesRemoval` | src/kernel/arch/x86_64/mem/vmm_mapping.c:219-261 | Unmapping removes exactly one page from a root and from the roots that share its entry |
| `Mapping.UnmapUndoesMap` | src/kernel/arch/x86_64/mem/vmm_mapping.c:219-261 | Unmapping a page straight after mapping it restores every translation of every root |
| `Mapping.SameLeafIffShared` | src/kernel/arch/x86_64/mem/vmm_mapping.c:9-92 | Two walks end in the same leaf entry exactly if they are for the same page of roots that share the entry |
| `Mapping.MapAllMaps` | src/kernel/mem/hh_direct_map.c:53-69 | Mapping a list of distinct pages gives each unmapped one the leaf asked for |
| `TableCount.BoundIsEnough` | src/kernel/arch/x86_64/mem/vmm_mapping.c:42-74 | Mapping n consecutive pages needs at most one frame for each table below the root that the run of pages begins, and one more for each inner level |
| `TableCount.TableBoundRounded` | src/kernel/arch/x86_64/mem/vmm_mapping.c:42-74 | That is at most n / 512 + n / 512^2 + n / 512^3 + 6 frames |
| `PageMapper.PageTables.constructor` | src/kernel/arch/x86_64/mem/vmm_mapping.c:9-36 | The state that the routines work on: memory, frame supply and kernel root |
| `PageMapper.PageTables.CleanNewTable` | src/kernel/arch/x86_64/system/vm.c:54-58 | All 512 entries of the table become zero and no other table changes |
| `PageMapper.PageTables.NextTable` | src/kernel/arch/x86_64/mem/vmm_mapping.c:42-74 | One level of the walk: a missing table is allocated, linked and cleaned, and mapping from the table below gives what mapping from here gives |
| `PageMapper.PageTables.MapHh` | src/kernel/arch/x86_64/mem/vmm_mapping.c:9-92 | With a frame for each missing table and no more, the in-place routine leaves the tables of the mapping function, whose entries `Permissions.MappedBits` gives bit by bit, and returns the address, or NULL if the page was mapped; for any frame address and any flags |
| `Permissions.MappedBits` | src/kernel/arch/x86_64/mem/vmm_mapping.c:25-92 | For every canonical address outside slot 510: an entry on its path that was present stays; a new link is present and writable and has the user bit exactly in the lower half; a new leaf has the bits of the frame address and of the flags, in the lower half the user bit, and with 2 MiB pages bit 7 |
| `Permissions.MapWritesEntry` | src/kernel/arch/x86_64/mem/vmm_mapping.c:42-87 | Mapping writes exactly the absent entries of the path: links to fresh tables above, the leaf below |
| `PageMapper.PageTables.UnmapHh` | src/kernel/arch/x86_64/mem/vmm_mapping.c:219-261 | The in-place routine leaves the tables of the unmapping function, for any contents of the tables; -1 exactly for a NULL argument or an unmapped page |
| `Permissions.UnmapClearsEntry` | src/kernel/arch/x86_64/mem/vmm_mapping.c:219-261 | Unmapping leaves a zero word in the entry of the page |
| `PageMapper.PageTables.WalkTable` | src/kernel/arch/x86_64/mem/vmm_mapping.c:336-401 | The walk reports how far it got and the frame of the page, for every address and any contents of the tables |
| `Permissions.WalkLevelIs` | src/kernel/arch/x86_64/mem/vmm_mapping.c:336-401 | The level is the number of leading entries above the leaf that are present, and the walk finds the last entry exactly if all are |
| `RecursiveMapper.MmuAgreesWithWalk` | src/kernel/arch/x86_64/mem/vmm_mapping.c:336-401 | The translation of the processor (4-level paging, section 4.5 of the Intel 64 and IA-32 SDM Volume 3A, where a large page ignores the address bits below its size) and the software walk agree on every address of a well-formed tree outside the recursive slot |
| `RecursiveMapper.PointerIs` | src/kernel/arch/x86_64/mem/vmm_mapping.c:105-135 | The pointers that the source writes out with slot 510 are the window addresses of the tables on the path |
| `RecursiveMapper.PointerResolves` | src/kernel/arch/x86_64/mem/vmm_mapping.c:105-135 | Every pointer of the recursive window resolves, through the processor, to the table it names, at every offset |
| `RecursiveMapper.CleanVirtual` | src/kernel/arch/x86_64/system/vm.c:54-58 | Cleaning a table through its window pointer, store by store, zeroes exactly that table |
| `RecursiveMapper.EnsureTable` | src/kernel/arch/x86_64/mem/vmm_mapping.c:115-150 | One level of the recursive mapper has the effect of one level of the direct-map mapper |
| `RecursiveMapper.MapRecursive` | src/kernel/arch/x86_64/mem/vmm_mapping.c:105-169 | For every root whose slot 510 points to itself, every address outside that slot, any frame address and any flags, the recursive mapper leaves the same memory and supply as the direct-map mapper, user bits included |
| `RecursiveLookup.UnmapRecursive` | src/kernel/arch/x86_64/mem/vmm_mapping.c:184-217 | Unmapping through the recursive slot leaves the tables of unmap_vaddress_hh on the active root; -1 exactly if the page was not mapped |
| `RecursiveLookup.PhysicalAddressMapped` | src/kernel/arch/x86_64/mem/vmm_mapping.c:268-310 | The answer is the verdict on the translation of the page: not mapped, mapped to this frame, or mapped to another one |
| `RecursiveLookup.VerdictAfterMap` | src/kernel/arch/x86_64/mem/vmm_mapping.c:268-310 | The answer is 0 for a page without a translation; after it has been mapped to a frame, 1 for exactly the addresses inside that frame and 2 for all others; and 0 again after unmapping |
| `AddressSpaces.PrepareVirtualMemory` | src/kernel/scheduling/task.c:119-148 | The loop builds the root of a new task: empty lower half, own recursive slot, the rest copied from the kernel root |
| `AddressSpaces.FreshTaskSpace` | src/kernel/scheduling/task.c:119-148 | A fresh root translates no lower-half page and every higher-half page like the kernel, so a container page that the kernel maps is the kernel's there too; its slot 510 is recursive as the recursive mapper needs it |
| `AddressSpaces.NewTaskKeepsWalks` | src/kernel/scheduling/task.c:119-148 | Creating a root changes no translation of any existing root |
| `AddressSpaces.RunIsolates` | src/kernel/scheduling/task.c:119-148 | Over every run of task creations, mappings and unmappings, a translation of a root is unchanged unless an operation names that page of the root or of a root that shares the entry at that moment |
| `Permissions.RunUserReach` | src/kernel/arch/x86_64/mem/vmm_mapping.c:25-92 | Over every run of task creations, mappings and unmappings, with any flags: what user mode may use of a root, every entry on the path having the user bit (section 4.6 of the Intel 64 and IA-32 SDM Volume 3A), is mapped in the lower half; a root that was not made at boot opens all it maps there; a page may be written to exactly if its leaf says so. The tables made at boot, whose lower half is closed (src/asm/boot.s:51-75), are any set that hangs together |
| `Permissions.BootEntriesOk` | src/kernel/scheduling/task.c:119-148 | The first state of the runs meets the condition of that law, with and without its root counted as made at boot |
| `Permissions.MapStepIsMapped` | src/kernel/arch/x86_64/mem/vmm_mapping.c:9-36 | A mapping step of a run is a call of a mapping routine, for every canonical address |
| `AddressSpaces.LowerHalfIsPrivate` | src/kernel/scheduling/task.c:119-148 | The lower half of a root is changed by no run that does not name this root |
| `AddressSpaces.RunKeepsRecursive` | src/kernel/scheduling/task.c:128-144 | A root keeps its recursive slot through every run |
| `AddressSpaces.BootStateIsSystem` | src/kernel/scheduling/task.c:119-148 | There is a first state for these runs in both page sizes: a kernel root with a recursive slot and any supply of distinct frames |
| `AddressSpaces.RunKeepsSharing` | src/kernel/scheduling/task.c:128-144 | Roots that share a higher-half entry translate all its pages alike in every later state |
| `AddressSpaces.LateKernelPageVisibleIffShared` | src/kernel/scheduling/task.c:128-144 | A page the kernel maps later is visible in an existing task exactly if that task already shared the root entry |
| `DirectMap.MapPhysicalMemory` | src/kernel/mem/hh_direct_map.c:53-69 | The loop maps the pages below the bound one by one, through the recursive mapper |
| `DirectMap.DirectMapCovers` | src/kernel/mem/hh_direct_map.c:53-69 | Every page of physical memory below the bound translates from the window to itself, whenever each iteration finds a frame for each table it misses |
| `DirectMap.DirectMapBits` | src/kernel/mem/hh_direct_map.c:53-69 | Its entry is present and writable, large with 2 MiB pages, and has no other flag |
| `DirectMap.FewFramesSuffice` | src/kernel/mem/hh_direct_map.c:53-69 | One frame for each table that the window begins is enough for the whole loop |
| `DirectMap.DirectMapKeepsOthers` | src/kernel/mem/hh_direct_map.c:53-69 | Translations outside the window are unchanged, in every root |
| `DirectMap.PhysOfVariable` | src/kernel/mem/hh_direct_map.c:22-40 | hhdm_get_phys_address undoes hhdm_get_variable on all of memory, and exactly the addresses of memory are accepted |
| `DirectMap.DirectMapReads` | src/kernel/mem/hh_direct_map.c:22-69 | After the loop the processor resolves the direct-map pointer of every byte to the 4 KiB frame that holds the byte |
| `Bitmap.SetBit` | src/kernel/mem/bitmap.c:147-149 | The words represent the old flags with that one frame set |
| `Bitmap.FreeBit` | src/kernel/mem/bitmap.c:151-153 | The words represent the old flags with that one frame cleared |
| `Bitmap.TestBit` | src/kernel/mem/bitmap.c:155-157 | The answer is the flag of that frame |
| `Bitmap.EntryFullIsPattern` | src/include/kernel/mem/bitmap.h:14 | A word equals the 15-digit constant exactly if its 60 low frames are in use and its four high ones are free |
| `Bitmap.RequestFrame` | src/kernel/mem/bitmap.c:93-107 | The lowest free frame outside the rows taken for full, -1 exactly if there is none |
| `Bitmap.RequestFrameCorrectIff` | src/kernel/mem/bitmap.c:93-107 | This is the lowest free frame of all exactly if the row of that frame is not taken for full |
| `Bitmap.RequestFrameMisses` | src/kernel/mem/bitmap.c:93-107 | An input on which it is not: one row with its 60 low frames in use, where the search fails although frame 60 is free |
| `Bitmap.RequestFrames` | src/kernel/mem/bitmap.c:109-136 | The row and column loops with their run counters return the lowest run of n free frames among the rows that are not skipped, skipped rows cut out |
| `Bitmap.SearchResultIsLowestRun` | src/kernel/mem/bitmap.c:109-136 | Without a row taken for full the result is the lowest start of n consecutive free frames, across rows, and -1 exactly if there is none |
| `Bitmap.SkippedRowBreaksRuns` | src/kernel/mem/bitmap.c:117-131 | A skipped row does not reset the run count: a bitmap for which the two frames returned lie on both sides of a skipped row and are not adjacent |
| `BitmapRuns.RequestFramesCorrectIff` | src/kernel/mem/bitmap.c:109-136 | For every bitmap and n: the result is the lowest run, or -1 for none, exactly if the lowest run starts in a row that is not skipped and before it there are no n free frames with a skipped row in between |
| `Bitmap.KernelEntries` | src/kernel/mem/bitmap.c:78-86 | The number of frames counted as used is the least that reaches a whole frame beyond the end of the kernel area |
| `Bitmap.MarkFirstFrames` | src/kernel/mem/bitmap.c:47-60 | Clearing the rows and filling the first ones marks exactly the first kernel_entries frames |
| `Pmm.FrameAllocator.constructor` | src/kernel/mem/pmm.c:29-40 | Before initialisation no frame has been issued |
| `Pmm.FrameAllocator.BumpFrame` | src/kernel/mem/pmm.c:83-95 | The next available frame at or above the pointer is issued, and the pointer moves past it; frames issued are distinct and increasing |
| `Pmm.FrameAllocator.Setup` | src/kernel/mem/pmm.c:29-58 | The phase change marks every frame up to the end of the bump area as used and sets the counter to their number: the first state of the runs |
| `Pmm.FrameAllocator.AllocFrame` | src/kernel/mem/pmm.c:65-80 | For every state: NULL with nothing changed if the availability test fails; else the frame found is marked and counted as the step of a run says, the address returned is that of its first byte, and it lies inside memory exactly if a free frame of memory stands in a row that is not taken for full; if the search fails, the failure value is taken for a frame number, no flag changes and the counter no longer fits the bitmap |
| `Pmm.FailureAddress` | src/kernel/mem/pmm.c:71-76 | The address returned after a failed search is the last page of the 64-bit space |
| `Pmm.FrameAllocator.AllocArea` | src/kernel/mem/pmm.c:97-114 | For every state and number of frames: what the search returns is marked and added to the 32-bit counter, and the address returned is that of the first byte of the first frame; the counter stays right, and the step is that of a run, exactly if the frames marked were all free; after a failed search the first n - 1 frames of the bitmap are marked instead |
| `Pmm.FrameAllocator.FreeFrame` | src/kernel/mem/pmm.c:116-122 | For every address: exactly that frame becomes free, if the bitmap has it, and the 32-bit counter drops by one; the counter is still right exactly if the frame was in use |
| `Pmm.AllocThenFree` | src/kernel/mem/pmm.c:65-122 | Freeing the address that an allocation inside memory returned restores the bitmap and the count |
| `Pmm.FrameAllocator.ReserveArea` | src/kernel/mem/pmm.c:131-145 | The free frames before the first one in use are marked and counted, as the step of a run says |
| `Pmm.FrameAllocator.ReserveUnusable` | src/kernel/mem/mmap.c:61-77 | The entries of the memory map that are not available and begin below the end of available memory are reserved one after the other, as a run of reservations |
| `Pmm.UnusableReserved` | src/kernel/mem/mmap.c:61-77 | Afterwards the first frame of every such entry is in use |
| `Pmm.OthersNotReserved` | src/kernel/mem/mmap.c:61-77 | And every frame that lies in none of them is as it was |
| `Pmm.ReserveMarksAllIff` | src/kernel/mem/pmm.c:138-143 | Reserving marks the whole area exactly if no free frame of it follows one in use |
| `Pmm.AreaFramesSuffice` | src/kernel/mem/pmm.c:132-136 | The frames counted for an area hold it, and one less would not |
| `Pmm.FollowsWhoeverHolds` | src/kernel/mem/pmm.c:65-145 | What a call does to the bitmap and the counter does not depend on who holds which frame, so the methods above take the steps of every run |
| `Pmm.BitmapInUseIff` | src/kernel/mem/pmm.c:45-55 | After set-up the bytes of the bitmap are in use exactly if they end within the boot frames |
| `Pmm.BitmapNotReserved` | src/kernel/mem/pmm.c:45-55 | The call that is to reserve the bitmap reserves nothing, since it starts at address 0 (the address is kept in a local variable, src/kernel/mem/bitmap.c:43) |
| `Pmm.AfterSetupIsJustSetUp` | src/kernel/mem/pmm.c:29-58 | The state that set-up leaves is one that these two rows and those on runs of single allocations are about |
| `FrameRuns.FirstFrameInBitmap` | src/kernel/mem/pmm.c:45-80 | If the bitmap reaches beyond the boot frames, and these do not end with the 60 low frames of a row, the first frame handed out after set-up lies in the bitmap |
| `FrameRuns.BitmapHandedOut` | src/kernel/mem/pmm.c:45-80 | With 4 KiB pages this is so on every machine of at least 32768 frames whose bitmap stands straight behind the reserved area, with the same exception |
| `Pmm.RunKeepsConsistent` | src/kernel/mem/pmm.c:65-145 | Over every run of allocations, reservations and frees of held frames, used_frames is the number of set bits and no frame has two holders |
| `Pmm.HoldersApart` | src/kernel/mem/pmm.c:65-145 | So the memory at the addresses that two holders were given never overlaps |
| `Pmm.AllocReturnsFreshFrame` | src/kernel/mem/pmm.c:65-80 | In every such state a frame handed out is held by nobody and is no boot frame |
| `Pmm.FoundInsideIff` | src/kernel/mem/pmm.c:65-80 | In every state the search finds a frame inside memory exactly if a frame of memory is free and its row is not taken for full |
| `Pmm.AvailableFrameExists` | src/kernel/mem/pmm.c:124-129 | In particular, if no row is taken for full, the availability test guarantees such a frame |
| `FrameRuns.SingleRunsStayInsideIff` | src/kernel/mem/pmm.c:65-80 | Over every run of single allocations from set-up, the availability test guarantees a frame inside memory exactly if memory ends before the four high frames of the first row in which set-up has used none of them |
| `FrameRuns.FourHolesInEachRow` | src/kernel/mem/bitmap.c:93-107 | From that row on such a run leaves four frames of each row free |
| `FrameRuns.SearchComesToFail` | src/kernel/mem/pmm.c:65-80 | In every bitmap such a run leads to a failing search with four frames free in each of these rows, so the test still passes if memory has these frames |
| `FrameRuns.SearchComesToStray` | src/kernel/mem/pmm.c:65-80 | If memory ends in the 60 low frames of a later row, such a run leads to a search that finds the frame just beyond memory, with the test still passing |
| `FrameRuns.SmallMachine` | src/kernel/mem/pmm.c:65-80 | 62 frames of 4 KiB: a run from set-up after which 60 are in use and the search fails |
| `FrameRuns.LargeMachine` | src/kernel/mem/pmm.c:65-80 | 65 frames of 2 MiB: a run from set-up after which 61 are in use and the search finds frame 65 |
| `FrameSupply.AllocatorSupplies` | src/kernel/mem/pmm.c:65-95 | The addresses that the next calls of a consistent allocator return are distinct, page aligned and held by nobody, and no page table lies in their frames if all lie in frames in use: they are a supply as the page-table routines need it |
| `Pmm.BootFrameNeverReissued` | src/kernel/mem/pmm.c:29-95 | In every run after set-up, the address of every frame handed out lies wholly above every page table issued before it |
| `Pmm.BootFrameNotInArea` | src/kernel/mem/pmm.c:29-114 | So does every area handed out |
| `KernelHeap.RealSizeSufficesIff` | src/kernel/mem/kheap.c:41-56 | The size looked for is 16-byte aligned, and at least the request exactly if the 64-bit sum does not wrap |
| `KernelHeap.RunKeepsHeap` | src/kernel/mem/kheap.c:45-156 | Over every run of kmalloc and kfree, with any sizes and pointers, that does not expand: nodes tile the same span (node + 32 + size is the next node), no two neighbours are free, and 16-byte alignment is kept |
| `KernelHeap.FreeUndoesTake` | src/kernel/mem/kheap.c:127-210 | Freeing a node straight after it was taken, split or not, restores the node list exactly |
| `KernelHeap.FreeKeepsSound` | src/kernel/mem/kheap.c:127-156 | Freeing keeps the tiling and leaves no two free neighbours |
| `HeapBytes.KfreeBytes` | src/kernel/mem/kheap.c:127-210 | kfree of a block in use that is not above the end pointer: the bytes of its node lie in one free node afterwards, and every other byte is free exactly if it was |
| `HeapBytes.StrayReleaseIsNoop` | src/kernel/mem/kheap.c:127-156 | kfree of any pointer that is not that of a block in use changes nothing |
| `KernelHeap.NodesDisjoint` | src/kernel/mem/kheap.c:213-236 | Nodes of a tiled heap, headers included, never overlap |
| `HeapRuns.StepKeepsUsed` | src/kernel/mem/kheap.c:45-156 | A node in use survives, with its address and size, every kmalloc and every kfree but the one of its own pointer |
| `HeapRuns.RunKeepsUsed` | src/kernel/mem/kheap.c:45-156 | So over every run that does not free it |
| `KernelHeap.MallocBlock` | src/kernel/mem/kheap.c:45-94 | The block lies in the first fitting free node, holds the request, is 16-byte aligned if the heap is, and shares no byte with any other node or header of the state; `HeapRuns.LiveBlocksDisjoint` carries this through runs |
| `HeapRuns.LiveBlocksDisjoint` | src/kernel/mem/kheap.c:45-156 | Over every run: two blocks handed out and not freed since lie apart, with a header in between, and each holds its request unless rounding its size up wraps |
| `HeapBytes.MallocBytes` | src/kernel/mem/kheap.c:45-94 | kmalloc takes exactly the bytes of one node out of the free ones: a header, the request, and at most 80 bytes more |
| `HeapBytes.MallocAnswers` | src/kernel/mem/kheap.c:45-94 | A block is returned exactly if a free node fits before the search passes the node that the end pointer names, and it is the first such node; the heap expands exactly if there is none and the end pointer names a node |
| `HeapBytes.RunKeepsOut` | src/kernel/mem/kheap.c:45-156 | Over every run the nodes in use are exactly the blocks handed out and not released since, releases above the end pointer not counted |
| `HeapBytes.AllReleased` | src/kernel/mem/kheap.c:16-156 | So the heap is one free node of the first size exactly if every block has been released |
| `HeapRuns.HeapStaysOnPageIff` | src/kernel/mem/kheap.c:16-94 | Every such block lies within the page of the heap; all headers do exactly if the last node is at least as long as a header, since the first node counts a full page behind its own |
| `HeapRuns.HeaderLeavesPage` | src/kernel/mem/kheap.c:16-94 | A run of one call after which a header crosses the end of the page |
| `KernelHeap.FreeAfterMallocRestoresIff` | src/kernel/mem/kheap.c:127-156 | kfree straight after kmalloc restores the list exactly if the end pointer afterwards is not below the block |
| `KernelHeap.KfreeEffectiveIff` | src/kernel/mem/kheap.c:127-136 | kfree of a block in use does nothing exactly if the block lies above the end pointer |
| `KernelHeap.FirstBlockCanBeStuck` | src/kernel/mem/kheap.c:127-136 | There is a run, of one call, after which a block in use cannot be freed |
| `KernelHeap.InitialHeap` | src/kernel/mem/kheap.c:16-39 | The first heap is one free node whose span is its header and a full page |
| `KernelHeap.ExpandKeepsNodesIff` | src/kernel/mem/kheap.c:96-120 | Expanding keeps every node exactly if the end pointer names the last one; otherwise the nodes behind it drop out |
| `HeapBytes.ExpandBytes` | src/kernel/mem/kheap.c:96-120 | If it names the last one, expanding adds exactly the bytes of the new node to the free ones, keeps the blocks in use, and lets the end pointer name the new area |
| `KernelHeap.EndPointerCanNameMiddle` | src/kernel/mem/kheap.c:193-236 | There is a run after which the end pointer names a node that is not the last |
| `HeapBytes.EndIsLastUntilRelease` | src/kernel/mem/kheap.c:213-236 | Until the first release the end pointer names the last node, and exactly the blocks before that node can be released |
| `HeapNodes.NodeHeap.constructor` | src/kernel/mem/kheap.c:16-39 | Set-up builds the initial heap |
| `HeapNodes.NodeHeap.CanMerge` | src/kernel/mem/kheap.c:170-191 | The bits tell exactly which neighbours are free |
| `HeapNodes.NodeHeap.MergeMemoryNodes` | src/kernel/mem/kheap.c:193-210 | The pointer updates merge two nodes of the list; prev and next stay inverse |
| `HeapNodes.NodeHeap.SplitCurrent` | src/kernel/mem/kheap.c:213-236 | The new node is linked between its neighbours and the end pointer follows if it named the node split |
| `HeapNodes.NodeHeap.Free` | src/kernel/mem/kheap.c:127-156 | The linked-list routine refines the kfree function, for every pointer |
| `HeapNodes.NodeHeap.Allocate` | src/kernel/mem/kheap.c:45-94 | The linked-list routine refines the kmalloc function up to the point where it would expand |
| `Scheduler.PickFacts` | src/kernel/scheduling/scheduler.c:58-90 | The pick is idle, READY, NEW or a sleeper past its wakeup time, never DEAD; it and the idle thread survive the deletion of the dead ones, and only dead threads are deleted |
| `Scheduler.ScheduleKeepsInv` | src/kernel/scheduling/scheduler.c:34-105 | Every call keeps: distinct threads in the list, the current and the idle thread among them, the idle thread alive, at most the current thread RUN |
| `Scheduler.NextKeepsInv` | src/kernel/scheduling/thread.c:100-116 | So do thread creation, sleep and exit |
| `Scheduler.Run` | src/kernel/scheduling/scheduler.c:34-174 | The invariant holds in every state of every run |
| `Scheduler.Boot` | src/kernel/scheduling/scheduler.c:115-124 | The state with the first thread satisfies it |
| `Scheduler.RunPreservesContext` | src/kernel/scheduling/scheduler.c:50-104 | Over every run, each switch resumes its thread with the frame of that thread's most recent switch-out, or with its creation frame; calls that do not switch return their frame |
| `Scheduler.BootTracks` | src/kernel/scheduling/scheduler.c:115-124 | The history of the first state is its creation, so the law holds from boot on |
| `ThreadLives.ExitIsFinal` | src/kernel/scheduling/scheduler.c:59-90 | A thread that exits is dead in every later state of every run and is never switched to again |
| `ThreadLives.ExitYields` | src/kernel/syscalls/sys_exit.c:12-18 | If it gives up the rest of its slice, the next interrupt switches away from it |
| `ThreadLives.SleepIsHonoured` | src/kernel/scheduling/thread.c:100-108 | A thread that goes to sleep is switched away from at the next interrupt, and is asleep and not switched to in every run up to its wakeup time |
| `ThreadLives.SwitchDeletesIff` | src/kernel/scheduling/scheduler.c:76-90 | A switch takes a thread out of the list exactly if it and all threads between the current one and it are dead |
| `ThreadLives.SwitchResumesIff` | src/kernel/scheduling/scheduler.c:58-100 | A switch goes to a thread other than idle exactly if all threads between the current one and it are dead and it is READY, NEW, or asleep past its wakeup time; the thread resumed is RUN with a new slice |
| `ThreadLives.RunKeepsListed` | src/kernel/scheduling/scheduler.c:58-160 | Over every run, a thread of the list that is not dead at the end is still in the list |
| `Fairness.SwitchChoosesIff` | src/kernel/scheduling/scheduler.c:58-95 | Another thread than idle gets the processor exactly if it is the first one behind the current one, around the end of the list, that is not DEAD, and it may run; idle gets it exactly if no other does |
| `Fairness.RoundRobin` | src/kernel/scheduling/scheduler.c:34-105 | While nobody sleeps, waits or dies, any number of interrupts leaves the list as it is and gives the processor to the thread whose turn it is |
| `Fairness.TurnIs` | src/kernel/scheduling/scheduler.c:50-52 | The turn moves one place along the list for every 513 interrupts, around its end |
| `Fairness.EveryThreadRuns` | src/kernel/scheduling/scheduler.c:34-105 | So every thread runs within one slice for each thread of the list |
| `Fairness.RunKeepsIdleLast` | src/kernel/scheduling/scheduler.c:115-124 | In every state reached from boot the idle thread is the last of the list, so that the thread behind it is the first |
| `Fairness.ReadyThreadsStarveBehindSleeper` | src/kernel/scheduling/scheduler.c:162-174 | As long as the thread behind idle sleeps, every interrupt resumes idle and no other thread changes, whatever else is ready |
| `Fairness.StarvationIsReached` | src/kernel/scheduling/scheduler.c:162-174 | For every wakeup time there is a run from boot to such a state with another thread READY |
| `ThreadList.ThreadScheduler.constructor` | src/kernel/scheduling/scheduler.c:115-124 | A list of one thread |
| `ThreadList.ThreadScheduler.GetNextThread` | src/kernel/scheduling/scheduler.c:162-174 | The thread after the current one, the first one at the end of the list, NULL for an empty list |
| `ThreadList.ThreadScheduler.DeleteThread` | src/kernel/scheduling/scheduler.c:126-160 | The first thread with that tid is unlinked, wherever it stands, and the size drops by one; nothing changes if there is none |
| `ThreadList.ThreadScheduler.AddThread` | src/kernel/scheduling/scheduler.c:115-124 | The thread is put at the front and the size grows by one |
| `ThreadList.ThreadScheduler.ActCurrent` | src/kernel/scheduling/thread.c:100-116 | Sleep and exit change the status of the current thread only |
| `ThreadList.ThreadScheduler.FindThread` | src/kernel/scheduling/scheduler.c:58-90 | The search loop ends with the pick of the specification and the list without the dead threads it met |
| `ThreadList.ThreadScheduler.Interrupted` | src/kernel/scheduling/scheduler.c:34-105 | The linked-list scheduler refines the scheduling function, frame returned included |
| `RangeBacking.AlignToPage` | src/kernel/mem/vmm_util.c:8-10 | The least multiple of the page size that is not below the value |
| `RangeBacking.SamePathIffSamePage` | src/include/kernel/arch/x86_64/vm.h:8-11 | Two canonical addresses are translated by the same leaf exactly if they lie in the same page |
| `RangeBacking.RangeExclusive` | src/kernel/mem/vmm.c:157-169 | Backing unmapped pages gives each a page frame that no other owned address has, in which no page table lies and which will not be handed out again |
| `RangeBacking.FewFramesBackRange` | src/kernel/mem/vmm.c:157-169 | A range of n pages is backed with n frames and one for each table it begins |
| `Backing.BackMaps` | src/kernel/mem/vmm.c:164-168 | Each unmapped page gets an entry of the frame taken for it and the flags asked for |
| `Backing.BackMapsIff` | src/kernel/mem/vmm.c:164-168 | A page gets the frame taken for it exactly if it was unmapped; a mapped page keeps its frame and the one taken for it is lost |
| `Backing.BackFramesAreTaken` | src/kernel/mem/vmm.c:164-168 | The frames are distinct page frames of the supply, out of it afterwards, and no page table lies in any of them, for 4 KiB and 2 MiB pages |
| `Backing.BackKeepsOthers` | src/kernel/mem/vmm.c:164-168 | Other pages keep their translation |
| `Vmm.NextContainerIsTwoPagesOn` | src/kernel/mem/vmm.c:104-112 | A container fits in a page, which at most one more item would fit as well, and the next one stands two pages on, in both page sizes |
| `Vmm.AllocKeepsInv` | src/kernel/mem/vmm.c:92-181 | Every call, successful or refused, that finds a frame for each page it backs and each table missing at that point keeps: recorded ranges whole pages, ascending and disjoint; indices within their containers; containers two pages apart; nothing mapped beyond; every backed page and container page with a page frame to itself |
| `Vmm.RunKeepsInv` | src/kernel/mem/vmm.c:92-188 | So over every sequence of calls, across container rollover; earlier ranges stay recorded |
| `Vmm.AllocKeepsRecords` | src/kernel/mem/vmm.c:145-149 | A call appends exactly one range to the records, or none if it is refused |
| `Vmm.InitialInv` | src/kernel/mem/vmm.c:34-90 | Initialisation on a root that maps nothing there establishes the invariant, with nothing recorded and the start of the window as next address |
| `VmmRanges.AllocAlignedIff` | src/kernel/mem/vmm.c:133-143 | A call keeps all ranges page aligned exactly if it is refused, or the base it uses is aligned |
| `VmmRanges.RunAlignedIff` | src/kernel/mem/vmm.c:133-143 | A run ends with all ranges aligned exactly if each of its calls does so |
| `VmmRanges.RangeFullyBackedIff` | src/kernel/mem/vmm.c:157-169 | A call backs every byte of the range it records exactly if that range is page aligned |
| `VmmRanges.BackedBytesShareFrameIffSamePage` | src/kernel/mem/vmm.c:157-169 | With aligned ranges, two bytes of backed ranges translate to the same frame exactly if they lie in the same page; never for two ranges |
| `VmmBytes.PhysOfByte` | src/kernel/mem/vmm.c:164-168 | The processor finds each byte of a page in the page frame of that page, at its offset within the page, in both page sizes |
| `VmmBytes.BackedBytesAreDistinct` | src/kernel/mem/vmm.c:157-169 | Through the processor, in both page sizes: two bytes of backed aligned ranges stand in the same physical byte exactly if they are the same byte, and none stands in a page table or in a frame still to be handed out |
| `VmmBytes.RunBytesAreDistinct` | src/kernel/mem/vmm.c:92-181 | So after every run of calls that ask for aligned addresses |
| `VmmResults.ReturnedIsRecorded` | src/kernel/mem/vmm.c:129-181 | A call that is not refused returns the address asked for if that lies beyond all given out, else the next one; the area at the address returned, for a stack the 64 KiB below it, is the range it records, with its size rounded up and its flags |
| `VmmResults.ReturnsNullIff` | src/kernel/mem/vmm.c:98-126 | NULL is returned exactly for size 0, or with a full container and no frame left |
| `VmmResults.ResultsDisjoint` | src/kernel/mem/vmm.c:92-181 | Over every run, whatever the flags and addresses asked for: the areas returned by two calls lie in the window and do not overlap |
| `VmmResults.AreasAreBacked` | src/kernel/mem/vmm.c:92-181 | After every run that asks for aligned addresses, through the processor: every byte of every area returned, unless only addresses were asked for, stands in a physical byte of its own, apart from all other areas, page tables and frames to come |
| `VmmAccess.RunAccess` | src/kernel/mem/vmm.c:151-169 | After every run, every page of every backed range is present and writable, has the other flags of its call, and may be used by user mode exactly if the range lies in the lower half, for every root that was not made at boot and for every range in the higher half |
| `VmmAccess.InitialAccess` | src/kernel/mem/vmm.c:77-89 | Initialisation leaves a state that meets the condition of that law |
| `VmmRanges.StackAddress` | src/kernel/mem/vmm.c:175-178 | The address returned for a stack is the end of its range exactly if the size rounds to the stack size, inside it exactly if it rounds to more; the byte below it is backed in just these cases |
| `VmmRanges.InitialContainerFrame` | src/kernel/mem/vmm.c:77-89 | The first container has the frame taken for it exactly if nothing was mapped at its address; otherwise the tables stay as they are, the container stands in the frame mapped before and the new one is lost |
| `TaskRanges.TaskPageIsOwnIff` | src/kernel/mem/vmm.c:34-90 | The window of a supervisor task is that of the kernel, in entries that its root shares: each page backed for it there gets a frame of its own exactly if the kernel has not mapped that page, and is the page of the kernel otherwise |
| `VmmRanges.EnabledIfFrames` | src/kernel/mem/vmm.c:92-181 | A call with room is enabled with one frame for each page it backs and each table it begins, and as many as there are levels for a new container; one that asks for addresses only takes none for its pages |
| `VirtualMemory.VmmInfo.constructor` | src/kernel/mem/vmm.c:34-90 | Initialisation builds the initial space; without a frame for the first container it leaves the tables as they are and no container set |
| `VirtualMemory.VmmInfo.BackPages` | src/kernel/mem/vmm.c:164-168 | With a frame for each page and each table missing at that point, the loop maps the pages one by one |
| `VirtualMemory.VmmInfo.AddContainer` | src/kernel/mem/vmm.c:104-122 | Rollover maps and links a new container |
| `VirtualMemory.VmmInfo.RecordRange` | src/kernel/mem/vmm.c:129-149 | The current slot is filled, within bounds, and the next address moves on |
| `VirtualMemory.VmmInfo.AllocAt` | src/kernel/mem/vmm.c:92-181 | The routine refines the allocation function and the returned address, which `VmmResults.ReturnedIsRecorded` ties to the range recorded; NULL for size 0 or no frame for a container |
| `VirtualMemory.InvCanAlloc` | src/kernel/mem/vmm.c:92-181 | The invariant gives every enabled call a slot within bounds and valid tables, and holds again afterwards |
| `Keyboard.NextKeepsInv` | src/kernel/hardware/keyboard.c:109-125 | Completed requests have exactly their length and only the head of the queue is partly filled |
| `Keyboard.RunConserves` | src/kernel/hardware/keyboard.c:109-125 | Over every interleaving of reads and keys, requests keep their order and the buffers in that order spell the characters accepted |
| `Keyboard.RunServesInOrder` | src/kernel/hardware/keyboard.c:109-125 | From an empty queue every request holds the part of the accepted characters that dealing them out in request order gives it |
| `KeyboardDriver.Driver.constructor` | src/drivers/ps2/ps2_keyboard_driver.c:11-20 | The queue starts empty |
| `KeyboardDriver.Driver.AddOperation` | src/drivers/ps2/ps2_keyboard_driver.c:36-45 | The linked operation is put at the end of the queue, also when the tail is stale because the queue had drained |
| `KeyboardDriver.Driver.KeyPressed` | src/kernel/hardware/keyboard.c:109-125 | A key goes to the head of the linked queue, which leaves it when full |
| `Windows.RectanglesAvoidArea` | src/kernel/graphics/window.c:38-83 | The rectangles never overlap each other or the pinned area, wherever it lies |
| `Windows.RectanglesPartitionIff` | src/kernel/graphics/window.c:49-81 | They cover exactly the window minus the area if and only if each side at which a rectangle is cut lies within the window |
| `Windows.InnerAreaIsCuttable` | src/kernel/graphics/window.c:49-81 | An area inside the window or along its edge meets that condition, and its rectangles stay inside the window |
| `Scroll.PixelOffsetInjective` | src/kernel/framebuffer/framebuffer.c:184-196 | The offset is row times pitch and four bytes for each column, and different pixels have different offsets, as long as rows fit the pitch and the framebuffer fits 32 bits |
| `Scroll.BoundStaysInsideIff` | src/kernel/framebuffer/framebuffer.c:244 | The unsigned loop bound stays inside the rectangle exactly if the rectangle ends at least a line below the top |
| `Scroll.ShiftsAndClearsIff` | src/kernel/framebuffer/framebuffer.c:241-255 | At every pixel, the clearing scroll is a shift up by one line with the last line black exactly for rectangles of at least two lines, whether the bound wraps or not |
| `Scroll.ShiftsIff` | src/kernel/framebuffer/framebuffer.c:241-255 | Without clearing it is a shift up by one line that keeps the last line exactly if the bound does not wrap |
| `Scroll.ScrollRect` | src/kernel/framebuffer/framebuffer.c:242-254 | The in-place loops leave the scrolled picture, for every rectangle on the screen |
| `Scroll.ScrolledAllPixel` | src/kernel/framebuffer/framebuffer.c:241-255 | Each pixel of disjoint rectangles is scrolled as if its rectangle were alone |
| `Scroll.FbScrollPixel` | src/kernel/framebuffer/framebuffer.c:241-255 | In a rectangle of at least two lines a pixel becomes the one a line below it, or in the last line black, if it is cleared, or what it was |
| `Scroll.ScrolledAllKeepsOthers` | src/kernel/framebuffer/framebuffer.c:241-255 | Pixels outside the rectangles are unchanged |
| `Scroll.PinnedAreaKept` | src/kernel/framebuffer/framebuffer.c:225-256 | Every pinned pixel is unchanged |
| `Scroll.PinnedAreaLeftOutIff` | src/kernel/framebuffer/framebuffer.c:233-236 | The pinned area is left out of what a call scrolls exactly if it does not cover the whole main window or does not meet the scrolling window |
| `Scroll.TargetsCover` | src/kernel/framebuffer/framebuffer.c:226-239 | A call works on the scrolling window without a pinned area, or if the area covers the main window; otherwise on the main window without the area |
| `Scroll.GetRectangles` | src/kernel/graphics/window.c:38-83 | The array is filled with the rectangles, none for NULL |
| `Scroll.FbScroll` | src/kernel/framebuffer/framebuffer.c:225-256 | The routine scrolls the rectangles around the area, or the scrolling window |
| `Octal.OctasciiToDec` | src/utils/utils.c:45-53 | The value of the octal digits, wrapped to 32 bits |
| `Octal.FieldDecodesIff` | src/utils/utils.c:45-53 | An eleven-digit size decodes to itself exactly below 2 GiB |
| `Octal.PrintedOctalDecodesIff` | src/utils/utils.c:45-53 | Printing in base 8, padding to eleven digits and decoding is the identity exactly below 2^31 |
| `Ustar.IsZeroed` | src/drivers/fs/ustar.c:146-154 | True exactly if all 512 bytes are zero |
| `Ustar.Find` | src/drivers/fs/ustar.c:89-114 | The number and the header of the first file with that name before the first zeroed header; -1 and NULL exactly if there is none |
| `Ustar.Seek` | src/drivers/fs/ustar.c:116-135 | The same header |
| `Ustar.NameReadIff` | src/drivers/fs/ustar.c:99 | If no slash follows the name field before the next NUL: the lookup reads the full name of a file exactly if its header has no prefix and its name is closed by a NUL, of its own field or, for a name of 100 bytes, of the mode field it runs on into; without that hypothesis, if it is so |
| `Ustar.NextReachesIff` | src/drivers/fs/ustar.c:98-108 | For every size that the field spells, the walk goes on to the header behind the data exactly if the size is at most 2^31 - 1024, where the 32-bit arithmetic overflows |
| `Ustar.EntryExists` | src/include/drivers/fs/ustar.h:16-33 | Every file with a name of at most 100 bytes and a size within that bound has an entry that the lookup reads, so the next rows are about such archives |
| `Ustar.ArchiveDecodes` | src/drivers/fs/ustar.c:89-154 | The walk over an archive of any entries, prefixed and unclosed names included, visits one header for each file, and each decodes to its size and contents, and to its name if the lookup can read it |
| `Ustar.LookupFindsFirstFile` | src/drivers/fs/ustar.c:89-144 | If every header is one that the lookup reads, looking up a name gives the first file of that name with its size and contents, or nothing exactly if no file has it |
| `Ustar.LookupRightIff` | src/drivers/fs/ustar.c:89-144 | For files of different names and mode fields of digits: every lookup is right exactly if every header has no prefix and a closed name |
| `Ustar.LongNameIsMissed` | src/drivers/fs/ustar.c:99 | For every file with a name of 100 bytes there is an archive of this one file in which the lookup of its name finds nothing |
| `Ustar.PrefixedNameIsMissed` | src/include/drivers/fs/ustar.h:16-33 | So there is for every file with a prefixed name |
| `Numbers.NumeralReadsBack` | src/base/numbers.c:98-116 | Reading the digits back gives the number, without a leading zero, in every base from 2 to 36 |
| `Numbers.NumeralUnique` | src/base/numbers.c:98-116 | It is the only digit string without a leading zero that does |
| `Numbers.NumeralCase` | src/base/numbers.c:98-116 | Its letters are all of the case asked for |
| `Numbers.NumeralDigit` | src/base/numbers.c:50-67 | Digit k from the right is the quotient by the k-th power, modulo the base, and the top digit is the one whose quotient is below the base |
| `Numbers.QuotientShrinksIff` | src/base/numbers.c:98-107 | The digit loop makes progress exactly from base 2 on |
| `Numbers.ReverseInPlace` | src/base/numbers.c:109-116 | The swapping loop reverses the digits in place and touches nothing else |
| `Numbers.GetNumericString` | src/base/numbers.c:80-119 | The buffer holds the numeral and the size is its length; 0 and no change for a base out of range; for the number zero nothing behind the digit changes |
| `Numbers.GetUnsignedDecString` | src/base/numbers.c:15-43 | The decimal printer gives the same numeral in base 10 |
| `Numbers.GetDecString` | src/base/numbers.c:3-13 | A minus sign and the numeral of the magnitude, down to the smallest 64-bit number |
| `Numbers.SignedReadsBack` | src/base/numbers.c:3-13 | Reading it back gives the number, with a minus sign exactly for negative ones |
| `Numbers.GetHexString` | src/base/numbers.c:45-77 | The shift-based printer gives the same numeral in base 16, NUL-terminated |

## Left out

- vmm_free, which its source marks as unfinished, and pmm_free_area, whose loop does not advance.
- The continuation of kmalloc after expand_heap: runs stop where the heap would expand; what expanding does to the list is stated on its own.
- Heap end pointer as tail: it is not one (`KernelHeap.EndPointerCanNameMiddle`), so list laws do not use it.
- Sibling lists of tasks, and threads that wait for each other: no thread is ever put into the state WAIT.
- Spinlocks, TLB invalidation and cr3 loads: operations are atomic steps and a changed entry is seen by the next walk.
- Interrupt plumbing, timers, ports, logging, ACPI, ELF loading, glyph drawing and the VFS layer: no visible semantics or easy members only.
- Key codes: translation of scancodes and modifiers is not modelled; a key event carries its character.
- The wait loop of sys_read and its user buffer lookup: a request carries its own buffer.
- ustar_read, ustar_lookup, map_vaddress, vm_copy_from_different_space: thin wrappers of what is modelled.
- Direct-map pointers of tables: represented by the frame they stand for, `DirectMap.DirectMapReads` and `DirectMap.PhysOfVariable` are why this is sound.
- Frame supply: page-table routines take new frames from a sequence of distinct, unused frames, as `FrameSupply.AllocatorSupplies` derives it from the frame allocator; a NULL from the allocator, which they do not check for, is not modelled, so each routine needs a frame for each table that is missing at that point and no more.
- Task creation order: create_task initialises the ranges of a task before its root is built; a run of `AddressSpaces` builds the root first.
- Thread and frame identifiers are unbounded; row counters of the bitmap are bounded to 16 bits as in the source.
- Bitmap.RequestFrame: requires at most 0xFFFF rows, beyond which the 16-bit row counter does not end its loop.
- Bitmap.RequestFrames: requires at most 0xFFFF rows, for the same reason.
- Pmm.FrameAllocator.Setup: requires that the boot frames fit the bitmap, beyond which the source would write; what follows it is stated by `Pmm.BitmapNotReserved` and `Pmm.FrameAllocator.ReserveUnusable`.
- Pmm.FrameAllocator.AllocFrame: a write outside the bitmap, after a failed search, changes no flag; the memory it hits is not modelled.
- Pmm.FrameAllocator.AllocArea: the same; after a failed search the first location is outside the bitmap and the others wrap to its beginning.
- Pmm.FrameAllocator.FreeFrame: an address beyond the bitmap changes no flag; the memory it hits is not modelled.
- Pmm.AllocThenFree: requires that the search finds a frame inside memory; what happens otherwise is stated by `Pmm.FrameAllocator.AllocFrame`.
- Pmm.FrameAllocator.ReserveArea: requires that the area ends within the bitmap, since how many frames are marked beyond it depends on the memory found there.
- Pmm.FrameAllocator.ReserveUnusable: requires the same of each area it reserves.
- HeapNodes.NodeHeap.Allocate: ends with the outcome `Expands` where the source goes on to expand the heap.
- PageMapper.PageTables.MapHh: addresses in the recursive slot are excluded, since they would overwrite the window of the tables. With flags above bit 11 or an unaligned frame address the tables are still those of the mapping function; the laws about translations are for aligned frames and flags below bit 12.
- RecursiveMapper.MapRecursive: the same.
- RecursiveMapper.MmuAgreesWithWalk: addresses in the recursive slot are excluded; what they resolve to is stated by `RecursiveMapper.PointerResolves`.
- VirtualMemory.VmmInfo.constructor: a frame for the container but none for a missing table is excluded, since the source does not check for it.
- VirtualMemory.VmmInfo.AllocAt: requires room in the window and frames; the source does not check either.
- Vmm.InitialInv: requires that the root maps nothing in the window and the container area, which a supervisor task violates; `VmmRanges.InitialContainerFrame` and `TaskRanges.TaskPageIsOwnIff` say what happens there.
- Scroll.ScrollRect: pixels are addressed by row and column, with `Scroll.PixelOffsetInjective` for the byte offsets; a rectangle that ends less than a line below the top makes the bound wrap (`Scroll.BoundStaysInsideIff`) and is excluded.
- Scroll.ScrolledAllPixel: excludes such rectangles.
- Scroll.ScrolledAllKeepsOthers: excludes such rectangles.
- Scroll.PinnedAreaKept: excludes such rectangles.
- Scroll.FbScroll: excludes such rectangles.
- Ustar.Find: requires that the walk reaches a zeroed header or one with the name inside memory; otherwise the source reads on beyond the archive.
- Ustar.Seek: requires the same.
- Ustar.LookupFindsFirstFile: requires headers that the lookup reads; `Ustar.LookupRightIff` says that this is needed.
- Numbers.GetNumericString: base 1 with a number above 0 is excluded because the loop does not end (`Numbers.QuotientShrinksIff`); the text of the number zero is not NUL-terminated by the source and the contract does not claim it.
- Signed overflow, in octascii_to_dec and in the walk of an archive, is modelled as wrap-around.
- A walk of an archive ends at the first zeroed header, since it does not move past it; a single zeroed block hides what follows.
