# A verified model of the kernel's memory stack, scheduler and number text

The kernel is a 32-bit 80386 kernel. This project models, in Dafny, the three
parts of it whose correctness is hardest to see from the code:

- **Memory.** The physical page allocator (bitmap, hint, word-at-a-time search),
  the virtual page allocator that backs pages with frames, the two-level page
  tables edited through the recursive window at 0xFFC00000, the free-list heap on
  top, and the start-up that puts them together.
- **Processes.** The two linked process lists, the life cycle between them, the
  two-tick round robin, and the context switch down to its pushes and `iret`.
- **Number text.** The 64-bit shift-and-subtract division, the number printer that
  relies on it, and the parsers that undo it.

Each part comes in two layers. The *specification* is a pure state machine: a
value for the state, a function for each operation exactly as the code performs it,
wrap-around of 32-bit counters and failure paths included. The *implementation* is
a class or method in the source's own form (arrays of 32-bit words, linked headers
by address, registers and a stack in memory), proved to perform the specification's
steps. The theorems are about the specification, over every input, every run or
every reachable state.

| part | specification and theorems | implementation |
|---|---|---|
| frames | `Runs`, `Frames`, `MemoryMap` | `Words`, `Bitmap`, `Pmm` |
| page tables | `PageWalk` | `Paging` |
| virtual pages | `Memory`, `Backing`, `Ownership`, `Outcomes`, `MemoryRuns` | `Vmm` |
| heap | `Layout`, `KernelHeap`, `HeapFit`, `HeapLive`, `HeapRoundTrip`, `HeapRuns` | `Links`, `HeapNodes`, `HeapRep`, `Heap` |
| start-up | `Boot`, `BootRuns`, `SystemRuns` | `Kinit`, `Mminit` |
| scheduler | `Processes`, `ProcessRuns`, `Startup`, `Unloading`, `RoundRobin` | `Scheduler` |
| context switch | `Switching` | `Cswitch` |
| numbers | `Divide`, `NumberText` | `Printf`, `Strtoul` |

`dafny verify dfyconfig.toml` checks the whole project.

## Main results

- `kmalloc` memory is physically contiguous in every state from allocation to
  free (`HeapRuns.KmallocContiguous`).
- In every run each frame backs at most one page, is marked used, and its page is
  reserved (`MemoryRuns.RunOwned`), starting from the state `mminit` leaves
  (`BootRuns.BootOwned`), and the kernel's own pages are never handed out
  (`BootRuns.KernelPagesSafe`, and with the heap on top `SystemRuns.BootRun`), nor
  is a page table mapped by anyone else (`SystemRuns.TablesSafe`).
- A `vmm_alloc` that runs out of frames at any point leaves pool and page map as
  they were (`Outcomes.AllocFailure`).
- Every heap region stays tiled exactly by its blocks (`HeapRuns.RunInv`), and
  alloc then free restores the heap exactly (`HeapRoundTrip.AllocThenFree`).
- The word-at-a-time searches are exactly a cyclic scan and first fit
  (`Frames.AllocOneIsCyclicScan`, `Bitmap.FindRun`), and reservations and heap
  allocations are first fit (`Outcomes.ReserveIsFirstFit`, `HeapFit.AllocFits`).
- Process lists, pids and the current pointer stay sound over every run
  (`ProcessRuns.RunInv`), turns are fair (`RoundRobin.EqualShares`,
  `RoundRobin.BoundedWaiting`), and kernel processes resume exactly
  (`Switching.Resumes`, `Cswitch.TimerTick`).
- Printing and parsing undo each other (`NumberText.PrintParse`,
  `NumberText.PrintParseSigned`), and the text printed is fixed character by character
  (`NumberText.RenderLayout`).

## Where the code departs from what it suggests

The model follows the code; each departure has its exact condition.

- `pmm_free` clears one page whatever the count (src/mm/pmm.c:158):
  `Frames.FreeExactIff`.
- The memory map is counted in whole pages but freed in started ones
  (src/mm/pmm.c:65-70, 170-171): `MemoryMap.InitExactIff`, `MemoryMap.AlignedExact`,
  `MemoryMap.UnalignedMap`.
- A failed search reports the longest run that a used page ends
  (src/mm/pmm.c:377-397): `Bitmap.LargestRunReport`, `Bitmap.TailIgnored`.
- `vmm_free` unmaps before it looks frames up, so frames are never returned
  (src/mm/vmm.c:208-217): `Ownership.FreeKeepsFrames`, and the last clause of
  `HeapRoundTrip.AllocThenFree`.
- A rolled-back `vmm_alloc` clears only the bits of the pages it had backed and
  leaves the counters alone (src/mm/vmm.c:139, 305-315): `Outcomes.AllocLeftovers`,
  `Ownership.AllocFailureDrift`. A failed `vmm_alloc_contiguous` keeps its
  reservation (src/mm/vmm.c:159-161): `Outcomes.ContiguousOutcome`.
- `vmm_unreserve` checks only the start of its range and runs round the end of the
  address space (src/mm/vmm.c:190-199): `Ownership.UnreserveOwnedIff`,
  `BootRuns.UnreserveWraps`.
- Heap requests near 2^32 wrap (src/mm/kheap.c:272-297, 339-382):
  `HeapRoundTrip.AllocInvIff`, `HeapRoundTrip.LargeEnoughIff`; so can the limit
  check of the boot allocator (src/mm/kinit_alloc.c:68): `Kinit.TakeFitsIff`.
- `proc_deregister` edits the active list even for an inactive process
  (src/scheduler/scheduler.c:429): `Unloading.DeregisterInvIff`,
  `Unloading.NeverUnloaded`.
- Unloading the current process makes a later switch save its registers over those
  of the list head, or with one process left stops all switching
  (src/scheduler/scheduler.c:151-175, 393-395): `Switching.UnloadSafeIff`,
  `Switching.UnloadMany`, `Switching.UnloadFew`.
- The user-mode save stores 16 bits of the stack pointer
  (src/scheduler/cswitch.asm:160): `Cswitch.Machine.CswitchSave`.
- `strtoll` overflows on the text of INT64_MIN, and both parsers stop at the blanks
  the printer may put first: `NumberText.PrintParseSigned`, `NumberText.PrintParse`.

## Model

| member | source | states |
|---|---|---|
| `Words.LowestClear` | src/mm/pmm.c:276-282 | the shift-and-count loop on a word finds its lowest clear bit |
| `Bitmap.SetPage` | src/mm/pmm.c:230-233 | sets exactly the bit of one page, all other bits of all words unchanged |
| `Bitmap.ClearPage` | src/mm/pmm.c:234-237 | clears exactly the bit of one page |
| `Bitmap.ScanWord` | src/mm/pmm.c:360-392 | the inner loop over one word carries run, start and largest run across word boundaries |
| `Bitmap.FindRun` | src/mm/pmm.c:352-398 | the word-at-a-time search is exactly first fit below the number of pages; it fails only when no such run exists, and leaves the count or the longest closed run in `largest_run` |
| `Bitmap.LargestRunReport` | src/mm/pmm.c:377-397 | on failure `largest_run` is the longest free run if and only if some used page ends a run as long as the one at the end of the bitmap |
| `Bitmap.TailIgnored` | src/mm/pmm.c:377-397 | concrete failure: two free pages at the end of the bitmap are reported as none |
| `Frames.AllocOneIsCyclicScan` | src/mm/pmm.c:242-351 | `pmm_alloc(1)` gives the first free page at or after the hint, else the first before it, and leaves the hint behind it; 0 exactly when nothing is free; counters stay exact |
| `Frames.AllocRunIsFirstFit` | src/mm/pmm.c:117-134 | a run of two or more frames is the lowest one; 0 exactly when there is none, with the longest closed run in `largest_run`; `largest_run` becomes the count on success; the hint stays |
| `Frames.FreeOutcome` | src/mm/pmm.c:135-163 | `pmm_free` of one page frees exactly the page at an aligned managed address and counts it; any other address changes nothing |
| `Frames.AllocGivesRun` | src/mm/pmm.c:102-134 | any count: success hands out a free run that is then used, failure changes neither bits nor counters |
| `Frames.FreeOneInv` | src/mm/pmm.c:135-163 | freeing one used frame other than 0 keeps the counters exact |
| `Frames.FreeExactIff` | src/mm/pmm.c:135-163 | freeing a run keeps the counters exact if and only if its length is 1: the loop clears one page whatever the count |
| `MemoryMap.InitExactIff` | src/mm/pmm.c:44-100 | after `pmm_init`, `used_pages` equals `usable_pages - free_pages` without wrapping if and only if the RAM regions of the memory map touch no more pages, page 0 apart, than they contain whole ones (modulo 2^32, as they are counted) |
| `MemoryMap.AlignedExact` | src/mm/pmm.c:65-95 | with RAM regions in whole pages, below 2^32 and disjoint, the pages counted are the pages freed and `used_pages` is exact |
| `Frames.MarkPagesRange` | src/mm/pmm.c:165-212 | marking a range sets exactly its managed pages and keeps `free_pages` equal to the clear bits and free + used equal to usable modulo 2^32 |
| `Pmm.Manager.constructor` | src/mm/pmm.c:44-100 | `pmm_init` builds the state `Frames.Init` from the memory map, bits past the end set |
| `Pmm.Manager.Survey` | src/mm/pmm.c:48-71 | the first pass computes the end of memory and the usable pages of all RAM regions |
| `Pmm.Manager.FindFrom` | src/mm/pmm.c:256-288 | the hinted word scan finds the first free page at or after the hint |
| `Pmm.Manager.FindBefore` | src/mm/pmm.c:304-334 | the second word scan finds the first free page before the hint |
| `Pmm.Manager.AllocOne` | src/mm/pmm.c:242-351 | `pmm_alloc_one` on the bitmap is the cyclic scan of `Frames` |
| `Pmm.Manager.Alloc` | src/mm/pmm.c:102-134 | `pmm_alloc` on the bitmap is `Frames.Alloc` |
| `Pmm.Manager.Free` | src/mm/pmm.c:135-163 | `pmm_free` on the bitmap is `Frames.Free`, guards included |
| `Pmm.Manager.MarkRange` | src/mm/pmm.c:165-212 | `pmm_mark_free` and `pmm_mark_used` on the bitmap are `Frames.Mark` |
| `MemoryMap.InitInv` | src/mm/pmm.c:44-100 | for every memory map the pool starts with exact counters, and free are exactly the pages that some RAM region touches, page 0 excepted |
| `MemoryMap.RamFlags` | src/mm/include/kphysmap.h:11-15 | a region counts exactly when its VALID bit is set and its type bits say RAM |
| `MemoryMap.EndReached` | src/mm/pmm.c:48-62 | the end of memory is the greatest end of a RAM region |
| `MemoryMap.UsableWhole` | src/mm/pmm.c:65-70 | the pages counted for a region are those that lie in it as a whole |
| `MemoryMap.FreeAfterInit` | src/mm/pmm.c:82-99 | for RAM below 2^32: a managed page is free after `pmm_init` if and only if it is not page 0 and some RAM region reaches into it |
| `MemoryMap.UnalignedMap` | src/mm/pmm.c:65-70 | concrete failure: a region of one unaligned page frees two pages but counts none usable |
| `PageWalk.WalkIsPages` | src/mm/paging.asm:294-330 | below 0xFFC00000 the processor's two-level walk is the page map |
| `PageWalk.DirectoryWindow` | src/mm/paging.asm:256-268 | the PDE address computed for any address reaches that address's directory entry through the recursive mapping |
| `PageWalk.TableWindow` | src/mm/paging.asm:270-292 | the PTE address computed below the window reaches the entry of its own page: injective in the page number |
| `PageWalk.PteSlotIsPdeIff` | src/mm/paging.asm:270-292 | a PTE slot is a directory entry if and only if the address is at or above 0xFFC00000 |
| `PageWalk.MapTranslates` | src/mm/paging.asm:143-179 | every byte of a mapped range translates to its frame plus offset modulo 2^32, every other address as before |
| `PageWalk.PteFlags` | src/mm/paging.asm:88-96 | an entry carries the flag bits asked for and the present bit |
| `PageWalk.WalkReadsPte` | src/mm/paging.asm:294-330 | the processor's walk reads the entry that the computed PTE address reaches, in the window too |
| `PageWalk.UnmapUndoesMap` | src/mm/paging.asm:181-217 | unmapping a range that was unmapped before restores the page map |
| `PageWalk.BootTables` | src/init/entry.asm:78-100 | the tables the boot code builds are well formed and map nothing below the window |
| `PageWalk.BuildDirectoryEntry` | src/mm/paging.asm:75-82 | building an absent directory entry maps no page |
| `PageWalk.WriteTableEntry` | src/mm/paging.asm:88-96 | writing one table entry changes the mapping of that page alone |
| `Paging.PageTables.constructor` | src/init/entry.asm:78-100 | the kernel directory entries and the self-map |
| `Paging.PageTables.MapPage` | src/mm/paging.asm:55-104 | `_map_page` through the window: one page map entry added or replaced, tables stay well formed |
| `Paging.PageTables.UnmapPage` | src/mm/paging.asm:106-140 | `_unmap_page` removes one page |
| `Paging.PageTables.VirtToPhys` | src/mm/paging.asm:294-330 | `pg_virt2phys` of any address returns what the processor's walk would, 0 when there is no translation |
| `Paging.PageTables.MapPages` | src/mm/paging.asm:143-179 | `pg_map` maps consecutive pages to consecutive frames and touches no other page |
| `Paging.PageTables.UnmapPages` | src/mm/paging.asm:181-217 | `pg_unmap` removes exactly the range |
| `Memory.ReserveFresh` | src/mm/vmm.c:94-124 | a reservation is a run of clear bits none of which is mapped; a failed one changes neither bits nor counters |
| `Outcomes.ReserveIsFirstFit` | src/mm/vmm.c:94-124 | `vmm_reserve` takes the lowest run of clear bits that is long enough, and fails exactly when nothing or too much is asked for or no run is; a failed search reports the longest closed run |
| `Outcomes.InitOutcome` | src/mm/vmm.c:30-56 | `vmm_init`: every page free and counted, except page 0 of a range at address 0 |
| `Outcomes.UnreserveOutcome` | src/mm/vmm.c:169-200 | `vmm_unreserve` of an accepted range clears exactly the bits it reaches, round the end of the address space; of NULL, of nothing, of an address outside the range or inside a page it changes nothing |
| `Backing.RollbackRestores` | src/mm/vmm.c:305-315 | rolling back any number of backed pages restores the pool's bits and counters and the page map |
| `Backing.RollbackSpace` | src/mm/vmm.c:305-315 | a rollback clears exactly the VMM bits of its pages and leaves the counters alone |
| `Backing.BackOutcome` | src/mm/vmm.c:125-147 | the backing loop maps every page to a frame of its own or fails after all free frames and undoes itself |
| `Outcomes.AllocOutcome` | src/mm/vmm.c:125-147 | `vmm_alloc` that succeeds: the lowest run of pages reserved, each mapped for writing to a frame of its own that was free, exactly these frames used, everything else as before |
| `Outcomes.AllocFailure` | src/mm/vmm.c:125-147 | `vmm_alloc` fails exactly when no run of pages can be reserved or too few frames are free; then pool bits, pool counters and page map are as before, from whatever iteration |
| `Outcomes.AllocLeftovers` | src/mm/vmm.c:305-315 | when frames run out, of the lowest run only the pages not backed yet stay reserved, and the counters keep the whole of it |
| `Ownership.AllocFailureDrift` | src/mm/vmm.c:305-315 | after a rollback the gap between clear bits and `free_pages` has grown by the pages rolled back |
| `Outcomes.ContiguousOutcome` | src/mm/vmm.c:148-167 | `vmm_alloc_contiguous` fails exactly when no run of pages or no run of frames is long enough, and then a reservation already made is all that changes |
| `Outcomes.ContiguousSuccess` | src/mm/vmm.c:148-167 | its success reserves the lowest run of pages and leads its bytes in order to one run of frames that were free, and no other address anywhere else |
| `Ownership.FreeKeepsFrames` | src/mm/vmm.c:201-218 | `vmm_free` returns no frame to the pool, whatever it is given |
| `Ownership.UnreserveOwnedIff` | src/mm/vmm.c:169-200 | `vmm_unreserve` keeps one owner per frame if and only if no page it covers is mapped, counted round the end of the address space |
| `Ownership.FreeOwned` | src/mm/vmm.c:201-218 | `vmm_free` of a range below the window keeps one owner per frame, reserved or not |
| `Outcomes.FreeOutcome` | src/mm/vmm.c:201-218 | `vmm_free`: afterwards no address of the range leads anywhere, every other one where it did, the reservation is given back, the pool untouched |
| `Ownership.MmapOwned` | src/mm/mman.c:11-21 | `mmap` of used, unmapped frames keeps one owner per frame |
| `Outcomes.MmapOutcome` | src/mm/mman.c:11-21 | `mmap` fails exactly when the pages for its length cannot be reserved, and then changes nothing; else the lowest run of pages leads, byte for byte, to the memory asked for, with the flags asked for, and no other address anywhere else than before |
| `Outcomes.MunmapUndoesMmap` | src/mm/mman.c:11-33 | `munmap` of what `mmap` gave restores page map, bits and counters |
| `Outcomes.MunmapOutcome` | src/mm/mman.c:23-33 | `munmap`: afterwards no address of the range leads anywhere, every other one where it did; NULL is ignored |
| `Outcomes.PageCountIs` | src/mm/mman.c:11-33 | the pages for a length are the fewest that hold it, and none for a length in the last page below 2^32 |
| `Ownership.MunmapOwned` | src/mm/mman.c:23-33 | `munmap` of a range below the window keeps one owner per frame |
| `Ownership.DestroyOutcome` | src/mm/vmm.c:57-92 | after `vmm_destroy` nothing of the range is reserved or mapped, pages elsewhere are untouched, and exactly the frames of the range are back in the pool |
| `MemoryRuns.StepOwned` | src/mm/vmm.c:57-218 | every operation of pool, VMM and mmap keeps: mapped pages have their bit set, their frames are used, no frame backs two pages |
| `MemoryRuns.RunOwned` | src/mm/vmm.c:57-218 | the same in every state of every run |
| `MemoryRuns.StepCounted` | src/mm/vmm.c:94-263 | with valid frees, free + used stays the size of the range and the gap grows only by rolled-back pages |
| `MemoryRuns.RunCounted` | src/mm/vmm.c:94-263 | over every run: pool counters exact, VMM counters add up, `free_pages` never above the clear bits and equal to them until a rollback |
| `Vmm.Manager.constructor` | src/mm/vmm.c:30-56 | `vmm_init`: all pages free, page 0 of a range at address 0 used |
| `Vmm.Manager.MarkUsed` | src/mm/vmm.c:242-263 | `vmm_mark_used` on the bitmap is `Memory.MarkUsed` |
| `Vmm.Manager.Reserve` | src/mm/vmm.c:94-124 | `vmm_reserve` on the bitmap is `Memory.Reserve`, first fit included |
| `Vmm.Manager.Alloc` | src/mm/vmm.c:125-147 | `vmm_alloc` on bitmap, pool and page tables is `Memory.Alloc` |
| `Vmm.Manager.BackAll` | src/mm/vmm.c:131-144 | the backing loop with its rollback is `Memory.Back` |
| `Vmm.Manager.Rollback` | src/mm/vmm.c:305-315 | `rollback_allocations` is `Memory.Rollback` |
| `Vmm.Manager.AllocContiguous` | src/mm/vmm.c:148-167 | `vmm_alloc_contiguous` is `Memory.AllocContiguous` |
| `Vmm.Manager.Unreserve` | src/mm/vmm.c:169-200 | `vmm_unreserve` is `Memory.Unreserve`, guards and wrap-around included |
| `Vmm.Manager.Free` | src/mm/vmm.c:201-218 | `vmm_free` in the order it is written is `Memory.Free` |
| `Vmm.Manager.DestroyAll` | src/mm/vmm.c:57-92 | `vmm_destroy` over words and bits is `Memory.Destroy` |
| `Vmm.Manager.Mmap` | src/mm/mman.c:11-21 | `mmap` is `Memory.Mmap` |
| `Vmm.Manager.Munmap` | src/mm/mman.c:23-33 | `munmap` is `Memory.Munmap` |
| `Layout.TakeOk` | src/mm/kheap.c:164-194 | splitting or taking a free block keeps the exact tiling, sizes in multiples of 16 and at least 16, no free neighbours |
| `Layout.GiveOk` | src/mm/kheap.c:316-337 | freeing and merging with both neighbours keeps the same |
| `Layout.TakeUsed` | src/mm/kheap.c:164-194 | taking a block adds exactly that block to the used ones |
| `Layout.GiveUsed` | src/mm/kheap.c:316-337 | giving a block back removes exactly that block from the used ones |
| `Layout.GiveUndoesTake` | src/mm/kheap.c:164-223 | freeing what was just allocated restores the block list exactly |
| `Layout.UsedDisjoint` | src/mm/kheap.c:164-194 | different blocks of a tiled region do not overlap |
| `KernelHeap.AllocInv` | src/mm/kheap.c:339-382 | `heap_alloc` of a size that does not wrap keeps every region tiled, held by VMM and page map, and apart from the others |
| `KernelHeap.FreeInv` | src/mm/kheap.c:383-410 | `heap_free` of any pointer keeps the same |
| `HeapFit.FindFreeIs` | src/mm/kheap.c:241-271 | `block_find_free` finds the first free block that is large enough, over the regions of the requested kind in list order, or there is none |
| `HeapFit.AllocFits` | src/mm/kheap.c:339-382 | with a fitting block `heap_alloc` asks the VMM for nothing, returns the memory of the first fitting block, cut down to size when a header and 16 bytes remain, and changes no other |
| `HeapFit.AllocGrows` | src/mm/kheap.c:272-315 | without one it asks the VMM once, for the fewest pages that will do but at least 16; failure leaves the regions alone, success puts one new region at the end of the list and hands out its first bytes |
| `HeapFit.AllocGrowsIff` | src/mm/kheap.c:339-382 | a successful `heap_alloc` adds a region if and only if no free block fits |
| `HeapLive.LiveDisjoint` | src/mm/kheap.c:164-240 | a live allocation is 16-aligned and disjoint from every other block, used or free, headers included, and from every region header |
| `HeapLive.AllocLive` | src/mm/kheap.c:339-382 | an allocation adds one block of at least the requested size, in a region of the requested kind, and changes no other |
| `HeapLive.FreeLive` | src/mm/kheap.c:383-410 | `heap_free` of a live pointer removes that block alone; of anything else it changes nothing |
| `HeapRoundTrip.AllocThenFree` | src/mm/kheap.c:339-410 | alloc then free restores regions, blocks, VMM bitmap and counters and page map; the pool exactly when no region was grown |
| `HeapRoundTrip.WrappedGrow` | src/mm/kheap.c:272-315 | a request just below 2^32 wraps the page count, fails, and strands a region without a used block |
| `HeapRoundTrip.AllocInvIff` | src/mm/kheap.c:339-382 | `heap_alloc` keeps the heap's shape if and only if the size does not wrap into a stranded region or an empty block |
| `HeapRoundTrip.LargeEnoughIff` | src/mm/kheap.c:339-382 | the block handed out is as large as requested if and only if the size is at most 0xFFFFFFF0 |
| `HeapRuns.RunInv` | src/mm/kheap.c:86-410 | the heap's shape and frame ownership in every state of every run of heap and VMM operations |
| `HeapRuns.RunSpares` | src/mm/kheap.c:339-410 | a live block keeps address, size and the physical address of every byte through any run that does not free it |
| `HeapRuns.Contiguous` | src/mm/kheap.c:260-297 | in any valid state a live block of a contiguous region is physically contiguous byte for byte |
| `HeapRuns.StaysContiguous` | src/mm/kheap.c:241-297 | and it stays so in every state until it is freed |
| `HeapRuns.KmallocContiguous` | src/mm/include/kmalloc.h:10-11 | `kmalloc` memory is physically contiguous from the moment it is handed out until it is freed, whatever runs in between |
| `Links.LinksInverse` | src/mm/kheap.c:86-163 | in a well-formed list next and prev are inverse, and NULL exactly at the ends |
| `Links.AppendLinked` | src/mm/kheap.c:86-102 | append yields the well-formed list with the node at the end |
| `Links.RemoveLinked` | src/mm/kheap.c:103-124 | remove yields the well-formed list without the node |
| `Links.LinkedUnique` | src/mm/kheap.c:86-163 | the links between two ends determine the list |
| `Links.InsertLinked` | src/mm/kheap.c:125-141 | insert-after yields the well-formed list with the node behind its predecessor |
| `HeapNodes.BlockAllocRep` | src/mm/kheap.c:164-194 | the header writes of `block_alloc` represent the split block list |
| `HeapNodes.BlockFreeRep` | src/mm/kheap.c:195-223 | the header writes of `block_free` represent the merged block list |
| `Heap.KernelHeapManager.constructor` | src/mm/kheap.c:44-51 | `heap_init`: an empty heap over the VMM |
| `Heap.KernelHeapManager.RegionAppend` | src/mm/kheap.c:86-102 | the field writes of `region_append` |
| `Heap.KernelHeapManager.RegionRemove` | src/mm/kheap.c:103-124 | the field writes of `region_remove` |
| `Heap.KernelHeapManager.BlockInsertAfter` | src/mm/kheap.c:125-141 | the field writes of `block_insert_after`, other regions untouched |
| `Heap.KernelHeapManager.BlockRemove` | src/mm/kheap.c:142-163 | the field writes of `block_remove`, other regions untouched |
| `Heap.KernelHeapManager.BlockAlloc` | src/mm/kheap.c:164-194 | splits when a header and 16 bytes fit behind, else takes the block whole; fails on a block that is too small |
| `Heap.KernelHeapManager.BlockFind` | src/mm/kheap.c:224-240 | walking the headers finds the first block with that pointer, used or not, or none |
| `Heap.KernelHeapManager.BlockFindFree` | src/mm/kheap.c:241-271 | walking the headers finds the first free block large enough in a region of the requested kind, or none |
| `Heap.KernelHeapManager.GrowHeap` | src/mm/kheap.c:272-315 | a grown region represents `NewRegion`; failure leaves the heap's layout alone |
| `Heap.KernelHeapManager.Alloc` | src/mm/kheap.c:339-382 | `heap_alloc` on headers, VMM, pool and page tables is `KernelHeap.HeapAlloc` |
| `Heap.KernelHeapManager.MergeBlock` | src/mm/kheap.c:316-330 | the merging half of `heap_shrink` represents `Layout.Give` |
| `Heap.KernelHeapManager.Free` | src/mm/kheap.c:383-410 | `heap_free` on headers, VMM and page tables is `KernelHeap.HeapFree` |
| `Kinit.TakeOk` | src/mm/kinit_alloc.c:57-81 | an allocation is 16-aligned, behind everything handed out before and inside the limit; NULL exactly when it does not fit |
| `Kinit.TakeAllDisjoint` | src/mm/kinit_alloc.c:57-81 | for any series of requests the pieces are aligned, disjoint and inside [base, next) |
| `Kinit.TakeFitsIff` | src/mm/kinit_alloc.c:68-70 | the limit check is right except when the sum wraps around to something inside the limit |
| `Kinit.TakenLeads` | src/mm/kinit_alloc.c:74-75 | every byte of an allocation leads to the memory at its fixed offset |
| `Kinit.Allocator.constructor` | src/mm/kinit_alloc.c:32-40 | `kinit_alloc_init` |
| `Kinit.Allocator.Alloc` | src/mm/kinit_alloc.c:57-81 | `kinit_alloc` is `Kinit.Take` and maps the pages it touches at their fixed offset |
| `Kinit.Allocator.Finalize` | src/mm/kinit_alloc.c:41-47 | `kinit_alloc_finalize` disables the allocator and records what was used |
| `Boot.EntryDirect` | src/init/entry.asm:102-120 | the boot mappings are direct, skip page 0, and map no frame twice |
| `Boot.EntryExact` | src/init/entry.asm:102-120 | the boot code maps exactly the pages of the image and the first megabyte without page 0, and for writing exactly the first megabyte, data and bss |
| `Boot.TakeBitmaps` | src/mm/mminit.c:79-95 | both bitmaps always fit the boot allocator, one behind the other |
| `BootRuns.BootOwned` | src/mm/mminit.c:61-111 | after `mminit` the first megabyte, the image and all boot allocations are used in both allocators, every frame has one owner, the free counters are exact |
| `BootRuns.BootExact` | src/mm/mminit.c:97-100 | where `pmm_init` leaves `used_pages` exact, `mminit` does too |
| `BootRuns.DataMapped` | src/init/entry.asm:102-120 | the kernel's data, page tables included, is mapped at its fixed offset |
| `BootRuns.BitmapsMapped` | src/mm/mminit.c:79-86 | every byte of both allocator bitmaps is mapped at its fixed offset |
| `BootRuns.UnreserveWraps` | src/mm/vmm.c:190-199 | concrete failure: `vmm_unreserve` with a count of 2^20 gives up the mapped kernel pages, and the next reservation hands them out |
| `BootRuns.BootSystem` | src/mm/mminit.c:107-108 | the empty heap on top satisfies the invariant that all heap runs keep |
| `BootRuns.RunProtected` | src/mm/mminit.c:97-105 | protected pages stay used through every run that does not free them |
| `BootRuns.KernelPagesSafe` | src/mm/mminit.c:61-111 | from boot on, no run that respects the kernel's pages makes either allocator hand one out |
| `SystemRuns.RunSpared` | src/mm/kheap.c:339-410 | any run of heap and VMM calls keeps the protected pages used and all heap regions above them |
| `SystemRuns.BootRun` | src/mm/mminit.c:61-111 | the same from the state `mminit` leaves, with all invariants of the memory stack: no live heap block ever overlaps the kernel's pages |
| `SystemRuns.TablesSafe` | src/mm/mminit.c:61-111 | in every reachable state the frames of the page directory and the page tables are used, and no page maps one but the kernel's own |
| `Mminit.MapEntry` | src/init/entry.asm:102-120 | the six section mappings through the page tables |
| `Mminit.Start` | src/mm/mminit.c:61-111 | the calls of `mminit` on the allocators leave `Boot.MmInit` |
| `Processes.RegisterWell` | src/scheduler/scheduler.c:399-417 | registering keeps two well-formed disjoint lists |
| `Processes.CreateWell` | src/scheduler/scheduler.c:178-265 | creating moves a process from the inactive to the end of the active list; a failed stack leaves it inactive |
| `Processes.DestroyWell` | src/scheduler/scheduler.c:266-319 | destroying removes a process from the inactive list and its record from existence |
| `Processes.DeregisterWell` | src/scheduler/scheduler.c:418-437 | deregistering an active process moves it to the end of the inactive list |
| `Processes.TickWell` | src/scheduler/scheduler.c:149-176 | a tick keeps the lists and leaves the current process active |
| `ProcessRuns.StepInv` | src/scheduler/scheduler.c:149-437 | every step keeps list shape, flags, quantum and pid invariants |
| `ProcessRuns.RunInv` | src/scheduler/scheduler.c:149-437 | in every reachable state: lists well formed and disjoint, current NULL or active, records exactly for reachable processes, pids different until the counter wraps |
| `Startup.InitOutcome` | src/scheduler/scheduler.c:80-125 | `scheduler_init` with all three records: active are the init, idle and scheduler process in this order under pids 0, 1 and 2, as far as their stacks could be allocated, the others inactive for good; the init process is current |
| `Startup.InitCutShort` | src/scheduler/scheduler.c:95-117 | a record that cannot be allocated ends the start-up: what was started before stays, nothing is current |
| `Startup.LoadOutcome` | src/scheduler/scheduler.c:178-265 | a process registered and served ends up last in the active list under the next pid, with the flags and the stack it was given, or without a stack last in the inactive list for good; nobody else is touched |
| `ProcessRuns.InitInv` | src/scheduler/scheduler.c:80-125 | `scheduler_init` establishes the invariant of all runs, whichever allocation fails |
| `Unloading.DeregisterIff` | src/scheduler/scheduler.c:418-437 | deregistering a live process leaves well-formed lists if and only if it is active, already killed, or has a neighbour on both sides |
| `Unloading.DeregisterInvIff` | src/scheduler/scheduler.c:418-437 | it keeps the invariant of all runs if and only if the process is active or already killed, or has neighbours on both sides, its creation has failed, and pid 0 has been given out and belongs to nobody or pids repeat anyway |
| `Unloading.CreateAndKill` | src/scheduler/scheduler.c:349-354 | a middle process that still waits for its creation gets CREATE and KILL together, which no state of a run has |
| `Unloading.ActiveWithKill` | src/scheduler/scheduler.c:349-354 | the service loop then makes it active with KILL set |
| `Unloading.NeverUnloaded` | src/scheduler/scheduler.c:424-426 | and in every later run it stays active: deregistering it does nothing |
| `Unloading.DeregisterTooEarly` | src/scheduler/scheduler.c:429-429 | concrete failure: a process deregistered before it was created |
| `RoundRobin.TickPosition` | src/scheduler/scheduler.c:149-176 | the first tick of a quantum stays, the second moves to the next position or from the last to the first |
| `RoundRobin.RotatesBy` | src/scheduler/process.c:37-48 | after t ticks from the start of a quantum at position i, position (i + t / 2) mod n is current |
| `RoundRobin.EqualShares` | src/scheduler/scheduler.c:149-176 | every active process is current for exactly 2 of every 2n ticks, wherever they begin |
| `RoundRobin.TickPatience` | src/scheduler/scheduler.c:149-176 | each tick brings a waiting process one tick nearer |
| `RoundRobin.AppendWait` | src/scheduler/scheduler.c:362-375 | an appended process delays a waiting one by one quantum, or not at all if that one comes later in this round |
| `RoundRobin.RemoveWait` | src/scheduler/scheduler.c:376-397 | a process that leaves delays nobody |
| `RoundRobin.BoundedWaiting` | src/scheduler/scheduler.c:149-176 | no starvation: a process d places away that has not run yet has seen fewer than 2 (d + c) ticks, c being the processes created meanwhile |
| `Scheduler.ProcessScheduler.AppendToActive` | src/scheduler/scheduler.c:362-375 | the field writes of `procman_append` |
| `Scheduler.ProcessScheduler.RemoveFromActive` | src/scheduler/scheduler.c:376-397 | the field writes of `procman_remove`; removing the current process clears `current` |
| `Scheduler.ProcessScheduler.ProcRegister` | src/scheduler/scheduler.c:399-417 | `proc_register` is `Processes.Register` |
| `Scheduler.ProcessScheduler.CreateProc` | src/scheduler/scheduler.c:178-265 | `create_proc` is `Processes.Create`; returns the next inactive process, NULL after a failure |
| `Scheduler.ProcessScheduler.DestroyProc` | src/scheduler/scheduler.c:266-319 | `destroy_proc` is `Processes.Destroy`; returns the next inactive process |
| `Scheduler.ProcessScheduler.ProcDeregister` | src/scheduler/scheduler.c:418-437 | `proc_deregister` is `Processes.Deregister` |
| `Scheduler.ProcessScheduler.SchedulerInit` | src/scheduler/scheduler.c:80-125 | `scheduler_init` is `ProcessRuns.Init` |
| `Scheduler.ProcessScheduler.ProcessUpdate` | src/scheduler/process.c:37-48 | `process_update`: expires on every second tick |
| `Scheduler.ProcessScheduler.SchedulerSwitch` | src/scheduler/scheduler.c:149-176 | `scheduler_switch` is `Processes.Tick`, verdict included |
| `Scheduler.ProcessScheduler.ServicePass` | src/scheduler/scheduler.c:344-360 | a pass of the service loop ends and keeps the invariant; a tail that asks for service is all it serves; behind a tail that does not it serves everybody, as long as stacks can be had; so fewer processes ask for service after it unless none did |
| `Switching.InterruptResumes` | src/scheduler/cswitch.asm:73-111 | after a timer interrupt the new current process has exactly the CPU state it was last interrupted with |
| `Switching.RunFaithful` | src/scheduler/cswitch.asm:73-271 | in every reachable state each waiting process holds the context it was interrupted with |
| `Switching.StartFaithful` | src/scheduler/scheduler.c:80-125 | `scheduler_init` establishes that for the running code and the two fresh processes |
| `Switching.Resumes` | src/scheduler/cswitch.asm:73-271 | a kernel process resumes with exactly the registers, segments, stack pointer, cr3 and flags it had, whatever happens in between, while no current process is unloaded |
| `Switching.FirstRun` | src/scheduler/scheduler.c:178-252 | a process created by the service loop begins, when it is first switched to, in the start-up code on the top of its own stack, with flags 0x202 and the kernel's segments, whatever happens before |
| `Switching.UnloadSafeIff` | src/scheduler/scheduler.c:151-164 | with two or more processes left and the list head interrupted before, unloading a process lets everybody keep their own context through the next two interrupts, whatever runs, if and only if it is not the current one |
| `Switching.UnloadMany` | src/scheduler/scheduler.c:151-164 | what happens when it is: after the second interrupt everything is in order again except that the list head will resume as the unloaded process |
| `Switching.UnloadFew` | src/scheduler/scheduler.c:151-175 | and with one process or none left: no later interrupt switches, the remaining process is current for ever but never loaded |
| `Cswitch.Machine.BuildContext` | src/scheduler/scheduler.c:200-252 | the context part of `create_proc` builds `Switching.FreshContext` and puts argument and return address on top of the stack |
| `Cswitch.Machine.Pusha` | src/scheduler/cswitch.asm:73-76 | the eight pushes, with the stack pointer before them |
| `Cswitch.Machine.CswitchSave` | src/scheduler/cswitch.asm:116-210 | the context gets the frame, the stack pointer plus 12, the segments and cr3; from user mode the stack pointer is saved right if and only if its upper half was already in the context |
| `Cswitch.Machine.CswitchLoad` | src/scheduler/cswitch.asm:215-271 | the three pushes and `iret` leave exactly the saved CPU state |
| `Cswitch.Machine.TimerHandler` | src/scheduler/cswitch.asm:73-111 | the handler's instructions restore the interrupted state, or save it and load the other, whatever the called C functions leave in scratch registers and below the stack pointer |
| `Cswitch.TimerTick` | src/scheduler/cswitch.asm:73-111 | `scheduler_switch` and the handler together are one step of the system that `Switching` reasons about |
| `Cswitch.UserStackLost` | src/scheduler/cswitch.asm:159-160 | concrete failure: a user stack pointer below a 64 KB boundary saved over one above it |
| `Divide.RemainderStep` | src/libc/runtime/__udivmoddi4.c:15-23 | one step keeps quotient times divisor plus remainder equal to the bits shifted in; no bit is lost in the left shift, even for divisors above 2^63 |
| `Divide.LongDivide` | src/libc/runtime/__udivmoddi4.c:15-23 | the 64-step loop: numerator equals quotient times divisor plus a smaller remainder |
| `Divide.UDivMod` | src/libc/runtime/__udivmoddi4.c:6-30 | quotient and remainder for all 64-bit arguments; 0 and no remainder for a zero divisor |
| `NumberText.RenderLength` | src/libc/stdio/printf.c:110-129 | the printed length is max(width, sign + max(precision, digits)) for every format |
| `NumberText.RenderLayout` | src/libc/stdio/printf.c:110-157 | the printed text character by character: sign, zeros, numeral and blanks, with the zeros that a precision, a pad character '0' or neither asks for, and the blanks behind when left, else in front |
| `NumberText.NumeralIs` | src/libc/stdio/printf.c:57-108 | the numeral is in the base asked for, or 10 when that is none of 2, 8, 10 and 16, without leading zeros, its letters in the case asked for; nothing for 0 with precision 0 |
| `NumberText.DigitsValue` | src/libc/stdio/printf.c:77-107 | the digits printed denote the number |
| `NumberText.PrintParse` | src/libc/stdlib/strtoul.c:75-142 | printing then parsing with the same radix gives the number and the end of its digits, for every 64-bit number and format, unless blanks come first; an empty text stores no end |
| `NumberText.PrintParseSigned` | src/libc/stdlib/strtoul.c:232-319 | `pr_int` then `strtoll` gives every signed number back except INT64_MIN, whose magnitude overflows |
| `NumberText.AutoRadix` | src/libc/stdlib/strtoul.c:88-109 | with radix 0 a number reads back when it is written with the prefix of its base: none, 0, 0x or 0b |
| `NumberText.SignedPrefix` | src/libc/stdlib/strtoul.c:246-312 | behind a sign `strtoll` reads what `strtoull` reads, prefix included, negated for a minus |
| `NumberText.Refused` | src/libc/stdlib/strtoul.c:80-113 | NULL, empty text, a lone 0 in radix 0 and a radix outside 2 to 36 give 0 and store no end; a lone sign gives 0 and the start |
| `NumberText.DigitsOfAll` | src/libc/stdlib/strtoul.c:116-127 | the digit value of every character, letters of either case up to 35 |
| `Printf.NextDigit` | src/libc/stdio/printf.c:78-107 | masks and shifts, or the runtime division, take the last digit in each base |
| `Printf.FillDigits` | src/libc/stdio/printf.c:73-108 | the 64-character buffer holds all digits of every number, last digit first |
| `Printf.PrNumber` | src/libc/stdio/printf.c:52-158 | `pr_number` writes `NumberText.Render` |
| `Printf.PrUint` | src/libc/stdio/printf.c:159-161 | `pr_uint` writes the unsigned rendering |
| `Printf.PrInt` | src/libc/stdio/printf.c:162-164 | `pr_int` writes the signed rendering in base 10 |
| `Strtoul.ReadUnsigned` | src/libc/stdlib/strtoul.c:75-142 | `strtoull` with NULL, empty text, prefixes, bad radix and end pointer is `NumberText.Strtoull`, modulo 2^64 |
| `Strtoul.ReadSigned` | src/libc/stdlib/strtoul.c:232-319 | `strtoll` is `NumberText.Strtoll`: signs, the lone sign, and overflow found at the digit where it happens |

## Left out

- Preemption inside the memory operations, `create_proc`, `destroy_proc` and the service loop: each call is one atomic step.
- Several VMMs over one address range, per-process page directories (src/mm/paging.c) and user-mode switching: one flat page map, one VMM, kernel processes. The user-mode branch of the save is modelled, that of the load is not.
- Cswitch.Machine.CswitchLoad: kernel contexts only, for that reason.
- Cswitch.Machine.TimerHandler: interrupts in kernel mode only, for that reason.
- Ranges that reach the recursive window at 0xFFC00000, also by wrapping: mapping or unmapping there edits the page directory itself, and the walk that every later access depends on. `Legal` in `MemoryRuns` excludes `vmm_free` and `munmap` of such ranges; `vmm_unreserve`, which touches no page table, is modelled for every count.
- Ownership.FreeOwned: only ranges that end below the window, for that reason.
- Ownership.MunmapOwned: only ranges that end below the window, for that reason.
- Vmm.Manager.Free: only ranges that end below the window, for that reason.
- Vmm.Manager.Munmap: only ranges that end below the window, for that reason.
- Paging.PageTables.MapPage: only pages below the window, for that reason; so `UnmapPage`.
- Paging.PageTables.MapPages: only ranges below the window, for that reason; so `UnmapPages`.
- TLB invalidation, accessed and dirty bits of page table entries, page protection: no effect on the stated properties.
- `vmm_mark_free`, `heap_destroy` (it only forgets its lists), `pg_chgpriv`, the counter getters and the result of `vmm_mark_used` (whether a page had been used): easy members.
- Kinit.TakeOk: not for sizes within a megabyte of 2^32, where the limit check can wrap (`Kinit.TakeFitsIff` says when); so `TakeAllDisjoint` and `Allocator.Alloc`, and nothing asks for such a size.
- `kinit_alloc_align` with an alignment other than the default 16: nothing calls it so.
- Ownership.DestroyOutcome: not for a range that starts at address 0, whose marked page 0 `vmm_destroy` would free: `Legal` excludes it, and nothing destroys such a VMM.
- Vmm.Manager.DestroyAll: does not model that the bitmap itself is given back and its pointer is NULL afterwards.
- Allocator results inside the scheduler (process records, stacks) are parameters, as are page directories (`cr3`); a new record is assumed at a new address, which `HeapLive.LiveDisjoint` provides. The heap, VMM and executable of a process are not part of its record.
- The C functions the switch handler calls are known by the calling convention only: they may change eax, ecx, edx and the stack below the stack pointer. Arguments of `cswitch_save` and `cswitch_load` are method parameters, and the handler requires 64 bytes of stack.
- The process contexts and the block and region headers are records by address, not bytes of the same memory the stacks and allocations lie in.
- Printf.PrNumber: `width` and `precision` are unbounded integers, so the overflow of C's `int` for widths within 65 of INT_MIN is not modelled.
- Format parsing in `vformat`, string and character output, `strtoul`, `strtol` and their wrappers: the 64-bit forms contain the same loops.
- NULL checks of the static list helpers in kheap.c, whose callers never pass NULL.
- Boot image layout: `ImageOk` states what the linker script promises, page-aligned sections in order from 1 MB on, with room for the boot allocator's megabyte, and `TablesInside` that the page tables lie in .bss.
- src/elf, src/disasm, drivers, tty, uart, timers, shell, descriptor tables and exception printing: hardware, tables and user interface.
