# Myria kernel: memory management and scheduling

A Dafny model of the parts of the Myria x86-64 kernel that keep its memory and
its threads in order, with proofs of what those parts promise together.

Code that changes state in place is modelled by classes and methods (arrays for
the free stack, the byte bitmap and the thread tables; `next`/`prev` pointers for
the ready queue). Each method is proved against a function on values, or against
the page map its tables stand for, and the theorems over whole runs are about
those.

| file | models |
|---|---|
| `Types.dfy` | page size, word sizes |
| `PageTables.dfy` | the four-level walk (sections 4.5 and 4.6 of the Intel SDM, Volume 3A) over a total physical memory, and the tree-shape invariant: each table frame hangs below exactly one slot |
| `Addresses.dfy` | the split of 64-bit virtual addresses into four indices |
| `Ram.dfy` | physical memory with the frame allocator, as the page-table code sees it |
| `Tlb.dfy` | what the processor may cache of the tables: the TLB and the paging-structure caches (section 4.10 of the same manual) |
| `Blind.dfy` | the walks of `vmm.c`, which test present bits only, on any memory |
| `Vmm.dfy` | `vmm.c`: map, unmap, look up, ranges with rollback |
| `UserSpaces.dfy` | `user_as.c`: separate user address spaces, runs of creations and mappings, process construction |
| `UserMapping.dfy` | `user_mapping.c`: user pages in the active tables |
| `WriteEnable.dfy` | `mm/paging.c`: making the kernel's data pages writable, on tables of any shape |
| `PteBits.dfy` | entries as 64-bit words and bytes: the C bit expressions are the record operations the other files use |
| `PmmSimple.dfy` | `pmm_simple.c`: bounded free stack and bump pointer |
| `PmmBitmap.dfy` | `pmm.c`: byte bitmap with a search hint |
| `Heap.dfy` | `kmalloc` |
| `QueueSched.dfy` | `thread.c`: intrusive doubly linked ready queue, slices, yield, exit |
| `QueueLaws.dfy` | what that scheduler does over runs, told without its definition |
| `TableSched.dfy` | `thread_minimal.c`: thread table of any size N, cyclic search, slices, zombie cleanup |
| `TableLaws.dfy` | what each of its operations does to the table, and what no run can lose |

Main results:

- **Isolation over whole runs.** Any sequence of space creations and low-half
  mappings, each done or out of memory, has exactly the effect of its log of
  events, and which calls are done follows from the calls and the frames at the
  start alone (`UserAs.UserAs.Run`); on such logs a call changes no page but its own
  (`SpaceLog.Isolation`), a page has exactly the rights of its last call
  (`SpaceLog.LastCall`), and nothing becomes writable and executable unless asked
  for (`SpaceLog.NeverBoth`). Table frames of different spaces are disjoint and
  every space keeps the template's kernel half.
- **Page tables refine a map.** Where no large page is in the way, `vmm_map_page`
  changes one key or none, `vmm_unmap_page` removes one, `vmm_get_physical` is the
  lookup, and no cached translation is stale at any return; on any memory the
  words they write are stated exactly. A call succeeds if and only if the free
  frames cover the tables it misses, and so does a range, counting each table its
  pages miss together once; range mapping is all or nothing exactly for unmapped
  ranges.
- **Exact construction.** `create_user_process` succeeds if and only if 8 frames
  are free and takes exactly 8, three for data and five for tables;
  `setup_user_address_space` has its exact outcome in every case, and both say
  what happens to the rights of all other pages.
- **Write-enabling** keeps every translation on shared or cyclic tables,
  completes if and only if the page of every byte of the range is mapped, and
  touches no leaf of any other page.
- **Caches.** Nothing is stale after a successful `map_user_4k`, and
  `make_code_page_executable` keeps it so; after a failed call stale items lack user
  access at most.
- **Allocators.** The hinted bitmap search is the scan from page 0; conservation
  and exact undo hold in every run. The free-stack allocator hands out no held
  page in any disciplined run, and drops none within its first 1024 pages. What
  each operation does is stated for every input (`PmmBitmap.FreeExact`,
  `PmmSimple.BumpExact`, `Heap.KmallocExact` and their neighbours), with the
  capacities: 8192 pages, 261632 pages, 127 stacks.
- **Schedulers.** The pointer structure is a duplicate-free sequence and the
  partition of threads is kept; a thread at queue index k runs after exactly k + 1
  handovers and within 10 (k + 1) ticks; a thread that neither yields nor exits runs
  for exactly ten ticks, and longer only while nobody waits (`QueueLaws.Handover`).
  In the table scheduler a READY thread
  runs within N - 1 yields and 10 (N - 1) ticks, live threads never share
  stack memory, and no run without a direct run loses a ready or running thread
  (`TableLaws.RunConserves`).

Where the code does not do what it is for, the model follows the code, and a
lemma or a contract states the case and when the code is right:

- `pmm_alloc_pages` of `pmm_simple.c` accepts a page count whose byte size wraps
  (`PmmSimple.WrapHandsOutTwice`; exact condition `PmmSimple.AllocManySound`).
- `kmalloc` accepts a size that wraps past its limit check (`Heap.WrapOverlaps`;
  exact condition `Heap.KmallocSound`).
- `vmm_map_page` and `vmm_unmap_page` never look at the page-size bit. Under a
  large page the store goes astray (`Blind.HugeMapLost`); a successful call changes
  exactly its own key if and only if no large page covers the page
  (`Vmm.Vmm.MapPage`, `Vmm.Vmm.UnmapPage`, by `Vmm.OneKeyNeedsSmall`).
- `vmm_get_physical` ignores the page-size bit too (`Blind.LookupWrong`); it can be
  relied on if and only if no large page covers the page (`Blind.LookupExact`).
- `make_page_writable_minimal` sets the leaf's bit only; the page can be written if
  and only if every entry above is writable as well (`WriteEnable.EffectiveWrite`).
- `vmm_map_page` or-s flags into the address: the frame is the one asked for if
  and only if the flags have no address bit that the address lacks
  (`PteWords.LeafForIs`).
- `vmm_map_pages` undoes a failure by unmapping, which restores the map if and
  only if the range was unmapped before (`Vmm.RangeUndone`).
- `pmm_alloc_page` and `pmm_alloc_pages` of `pmm.c` return 0 for page 0
  (`PmmBitmap.BootReports0`); 0 means failure if and only if an allocation was
  made before (`PmmBitmap.ZeroMeansNone`).
- `create_user_process` gives nothing back on failure: no frame is left free.
- A finished thread of `thread_minimal.c` is made READY again by its own yield
  (`TableModel.FinishResurrects`, reached in `TableModel.FinishExample`), and a
  scheduler started with no READY thread leaves those created later READY until it
  is started again or threads are run directly (`TableModel.StartedTooEarly`,
  `TableModel.TooEarlyExample`).
- A second `sched_start`, or `sched_run_threads` under a running scheduler, leaves
  two threads RUNNING or a RUNNING thread that is not current, unless nobody is
  READY (`TableModel.StartKeeps`, `TableModel.RunDirectKeeps`: if and only if).
- The full-table test of `thread.c` never succeeds; the eighth thread is queued
  without a table slot (`QueueSched.Scheduler.ThreadCreate`).

## Model

| member | source | states |
|---|---|---|
| PmmSimple.RunSafe | os/kernel/mm/pmm_simple.c:51-115 | over every disciplined run of page and run allocations and frees: free-stack entries stay distinct, aligned, issued and held by nobody, and used + free = total, also when a full stack drops a freed page |
| PmmSimple.StepKeeps | os/kernel/mm/pmm_simple.c:51-109 | each of the four operations keeps that invariant |
| PmmSimple.AllocKeeps | os/kernel/mm/pmm_simple.c:51-70 | a page handed out is a pool page that no caller holds and that was not dropped; 0 exactly when the reported free count is 0, and then nothing changes |
| PmmSimple.AllocTakesOne | os/kernel/mm/pmm_simple.c:51-70 | the set of frames still to be handed out loses exactly the returned frame |
| PmmSimple.AvailCount | os/kernel/mm/pmm_simple.c:111-115 | the reported free count is the number of frames still to be handed out |
| PmmSimple.FreeKeeps | os/kernel/mm/pmm_simple.c:72-88 | freeing a held page takes exactly that page from the held set, whether it is stacked or dropped |
| PmmSimple.FreeGivesOne | os/kernel/mm/pmm_simple.c:72-88 | with room on the stack, the freed frame becomes available again and the free count grows by one |
| PmmSimple.FreeThenAlloc | os/kernel/mm/pmm_simple.c:51-88 | the page freed last is the next one handed out, which undoes the free |
| PmmSimple.BumpExact | os/kernel/mm/pmm_simple.c:51-70 | new pages are taken only when no freed one is left, upwards below 1 GB; otherwise the freed page on top is handed out |
| PmmSimple.FreeExact | os/kernel/mm/pmm_simple.c:72-88 | a pool page is stacked while fewer than 1024 are there; one more, and any address outside 2 MB to 1 GB, is ignored |
| PmmSimple.Capacity | os/kernel/mm/pmm_simple.c:21-70 | from the start exactly 261632 pages are handed out, in order from 2 MB, with the figures reported after each |
| PmmSimple.RunExact | os/kernel/mm/pmm_simple.c:90-102 | a run is met exactly if the pool above the bump pointer holds it, with everything else as it was |
| PmmSimple.NothingDropped | os/kernel/mm/pmm_simple.c:72-88 | over every disciplined run that stays within the first 1024 pages no freed page is dropped |
| PmmSimple.AllocManyKeeps | os/kernel/mm/pmm_simple.c:90-102 | a contiguous run comes from the bump pointer, overlaps no held page and lies in the pool; 0 exactly for an empty request or one larger than the rest of the pool, which changes nothing |
| PmmSimple.AllocManySound | os/kernel/mm/pmm_simple.c:90-102 | the run returned lies inside the pool if and only if the 64-bit bound check agrees with exact arithmetic |
| PmmSimple.SmallRunsDoNotWrap | os/kernel/mm/pmm_simple.c:94 | requests below 2^51 pages always meet that condition |
| PmmSimple.WrapHandsOutTwice | os/kernel/mm/pmm_simple.c:94-98 | a concrete wrapping request after which a page still held is handed out again |
| PmmSimple.FreeRunKeeps | os/kernel/mm/pmm_simple.c:104-109 | freeing a held run takes exactly its pages from the held set |
| PmmSimple.FreeRunIsFreeMany | os/kernel/mm/pmm_simple.c:104-109 | the bookkeeping of a run free has the allocator state of the 64-bit loop |
| PmmSimple.InitSafe | os/kernel/mm/pmm_simple.c:21-49 | the initial allocator meets the invariant with nothing held |
| PmmSimple.Pmm.constructor | os/kernel/mm/pmm_simple.c:21-49 | the object starts in that state |
| PmmSimple.Pmm.AllocPage | os/kernel/mm/pmm_simple.c:51-70 | on any state the array stack is popped, else the pointer bumped, as in the value model; on sound books the page was held by nobody and the available frames lose exactly it |
| PmmSimple.Pmm.FreePage | os/kernel/mm/pmm_simple.c:72-88 | on any state and address: pushes onto the array stack, drops on a full one, ignores addresses outside the pool; a disciplined free keeps the books sound |
| PmmSimple.Pmm.AllocPages | os/kernel/mm/pmm_simple.c:90-102 | on any state and count: the 64-bit bound check and bump of the value model; books stay sound when the check does not wrap |
| PmmSimple.Pmm.FreePages | os/kernel/mm/pmm_simple.c:104-109 | on any state: the loop in 64-bit addresses; freeing a held run takes exactly its pages from the held set |
| PmmSimple.Pmm.GetPmmStats | os/kernel/mm/pmm_simple.c:111-115 | reports the figures of the state; used + free = total on sound books |
| PageTables.SameWalk | os/kernel/mm/vmm.c:161-184 | translation, effective rights and missing tables depend only on the slots the walk reads |
| PageTables.VisitsInside | os/kernel/mm/vmm.c:85-130 | under the tree shape a walk reads only slots of its own tables, at the page's own indices |
| PageTables.OnePath | os/kernel/mm/vmm.c:85-130 | two walks that read one slot start at one table and share every index from there up: each table is reached by one path |
| PageTables.OnePage | os/kernel/mm/vmm.c:85-130 | a leaf slot belongs to one page of one address space |
| PageTables.LinkTree | os/kernel/mm/vmm.c:69-82 | hanging a blank frame below an absent entry keeps the tree shape |
| PageTables.LinkWalk | os/kernel/mm/vmm.c:69-121 | it changes no translation and makes exactly the walks through that entry miss one table less |
| PageTables.LinkMapped | os/kernel/mm/user_as.c:92-108 | it changes no mapped page's effective rights |
| PageTables.LeafHit | os/kernel/mm/vmm.c:123-130 | a write to a leaf slot sets the translation of the page that reads it |
| PageTables.LeafMiss | os/kernel/mm/vmm.c:123-130 | and changes translation and rights of no other page of any space |
| PageTables.ThreeTables | os/kernel/mm/user_as.c:111-160 | the three table steps of a mapping make exactly the tables of the mapped page's own path |
| Addresses.SamePage | os/kernel/mm/vmm.c:9-12 | two addresses have the same four indices exactly when their 36-bit page numbers agree |
| Addresses.EveryPage | os/kernel/mm/vmm.c:9-12 | every quadruple of indices is the split of an address |
| Addresses.RangeDistinct | os/kernel/mm/vmm.c:225-228 | a range of at most 2^36 pages has no page twice, even when its addresses wrap around 2^64 |
| Ram.Machine.constructor | os/kernel/mm/pmm_simple.c:32-49 | memory starts with the allocator holding its whole pool |
| Ram.Machine.AllocFrame | os/kernel/mm/pmm_simple.c:51-70 | as seen by the page-table code: an available frame that nobody holds, or 0 with nothing changed |
| Ram.Machine.FreeFrame | os/kernel/mm/pmm_simple.c:72-88 | a frame given back is available again, or dropped exactly when the free stack is full |
| Ram.Machine.AllocZeroed | os/kernel/mm/user_as.c:27-37 | a fresh frame, cleared; no other word of memory changes |
| Ram.Machine.Figures | os/kernel/mm/pmm_simple.c:111-115 | the statistics are fixed by the free count and by the pages callers hold |
| Ram.Machine.Count | os/kernel/mm/pmm_simple.c:111-115 | the free count is the number of available frames |
| Ram.Machine.TakeThree | os/kernel/mm/user_mapping.c:138-148 | three distinct frames if and only if three are available; a failure restores the held set, the available frames and the reported statistics |
| Tlb.Hardware | os/kernel/mm/vmm.c:123-130 | the processor may at any moment cache anything the tables say, and only that |
| Tlb.LinkAgrees | os/kernel/mm/vmm.c:99-121 | a cached translation or upper entry stays right when an empty table is linked |
| Tlb.LeafAgrees | os/kernel/mm/vmm.c:123-158 | a leaf write outdates at most the translation of its own page |
| Tlb.HardwareNearly | os/kernel/mm/user_mapping.c:119-121 | between two steps the processor may cache what the tables say, which keeps cached items right but for user access |
| Blind.BlindStep | os/kernel/mm/vmm.c:99-121 | one table step of the code on any memory is one step of the walk that tests present bits only |
| Blind.BlindReads | os/kernel/mm/vmm.c:161-184 | without a large page that walk ends where the processor's does, on any memory |
| Blind.BlindInside | os/kernel/mm/vmm.c:85-184 | with a large page it goes on in that page's memory |
| Blind.LookupWrong | os/kernel/mm/vmm.c:161-184 | under any 2M or 1G page there is memory, with the same tables, for which the lookup reports 0 |
| Blind.LookupExact | os/kernel/mm/vmm.c:161-184 | the lookup gives the processor's address for every memory with these tables if and only if no large page covers the page (for a large page that holds no table and is not at address 0) |
| Blind.BlindHits | os/kernel/mm/user_mapping.c:222-224 | with a 4K leaf, following three entries without any test ends at the page's own leaf slot |
| Blind.HugeMapWrites | os/kernel/mm/vmm.c:85-130 | exactly what mapping a page under a 2M or 1G page writes, also when a 1G page's middle word is not present and a table is made in the data page |
| Blind.HugeMapLost | os/kernel/mm/vmm.c:85-130 | unless it hits a table, all of that is lost on the page map |
| Vmm.LinkKeeps | os/kernel/mm/vmm.c:99-121 | linking an empty table keeps tree shape, page map and cache coherence |
| Vmm.LeafUpdates | os/kernel/mm/vmm.c:123-158 | a leaf write changes exactly one key of the page map |
| Vmm.UnmapRangeIs | os/kernel/mm/vmm.c:242-246 | unmapping a range removes exactly the pages of the range |
| Vmm.MapRangeIs | os/kernel/mm/vmm.c:225-239 | mapping a range adds exactly the pages of the range |
| Vmm.MapRangeAt | os/kernel/mm/vmm.c:225-239 | page i of the range is mapped to frame i |
| Vmm.MapRangeFrames | os/kernel/mm/vmm.c:225-239 | for flags without address bits and memory below 2^52, page i of the range leads to the i-th frame from the given one, with the rights of the flags |
| Vmm.RangeUndone | os/kernel/mm/vmm.c:225-246 | mapping and unmapping a range restores the page map if and only if none of its pages was mapped before |
| Vmm.LargeShared | os/kernel/mm/vmm.c:85-124 | all 4K pages below one large page share its translation |
| Vmm.OneKeyNeedsSmall | os/kernel/mm/vmm.c:85-158 | whatever is written to memory: if the page map changed at exactly one key, by a 4K leaf or by a removal, no large page covered that page |
| Vmm.SharedMissing | os/kernel/mm/vmm.c:97-121 | pages that share the path to a table both miss it or both have it |
| Vmm.NeedIsPlaces | os/kernel/mm/vmm.c:225-239 | the frames that mapping a range takes, page by page, are as many as the distinct tables its pages miss together |
| Vmm.Vmm.constructor | os/kernel/mm/vmm.c:43-60 | tables of tree shape, disjoint from the allocator's frames, with an empty cache, meet the invariant |
| Vmm.Vmm.AllocTable | os/kernel/mm/vmm.c:69-82 | a cleared frame outside every table; the page map does not change |
| Vmm.Vmm.LinkTable | os/kernel/mm/vmm.c:99-121 | the new table is hung below one slot, and the page map and the caches stay as they were |
| Vmm.Vmm.MakeTable | os/kernel/mm/vmm.c:99-104 | succeeds exactly when a frame is left; on any memory the frame is cleared and linked below the slot; on sound tables it becomes a table at once, and one table less is missing |
| Vmm.Vmm.NextTable | os/kernel/mm/vmm.c:97-121 | on any memory one step of the presence-only walk, with the frame it took; on sound tables the next table on the page's walk, and it fails only with no frame left and a table missing |
| Vmm.Vmm.WalkDown | os/kernel/mm/vmm.c:97-121 | the three table steps are the presence-only walk on any memory; on sound tables without a large page they succeed if and only if the free frames cover the missing tables |
| Vmm.Vmm.SetLeaf | os/kernel/mm/vmm.c:123-127 | one key of the page map changes, and after the flush no cached item is out of date |
| Vmm.Vmm.MapAt | os/kernel/mm/vmm.c:85-130 | on any memory exactly the words written and frames taken; on sound tables with no large page in the way: succeeds if and only if the free frames cover the missing tables, changes one key on success and none on failure, and every frame taken is a table; a change at exactly that key means that no large page was in the way |
| Vmm.Vmm.MapPage | os/kernel/mm/vmm.c:85-130 | for any memory, address, physical address and flags exactly what is written; a successful call on sound tables changes exactly its own key if and only if no large page covers the page; without one, tree shape and TLB coherence hold at return, on failure too |
| Vmm.Vmm.FindTable | os/kernel/mm/vmm.c:133-152 | on any memory the table the presence tests lead to, or none; on sound tables without a large page it is the page's leaf table, and there is none only for an unmapped page |
| Vmm.Vmm.UnmapPage | os/kernel/mm/vmm.c:133-158 | on any memory exactly the word cleared; on sound tables removes exactly one key if and only if no large page covers the page, and then leaves no stale translation |
| Vmm.Vmm.GetPhysical | os/kernel/mm/vmm.c:161-184 | on any memory what the presence tests and the last word give; without a large page this is the lookup in the page map, 0 for an unmapped page |
| Vmm.Vmm.MapPages | os/kernel/mm/vmm.c:225-239 | on any memory exactly the words written, page by page, with the rollback; without large pages: succeeds if and only if the free frames are at least the distinct tables the range misses; a failure on a range that was unmapped before leaves the page map exactly as it was, with no table frame lost |
| Vmm.Vmm.UnmapPages | os/kernel/mm/vmm.c:242-246 | on any memory exactly the words cleared; removes the range from the page map when no large page covers one of its pages |
| Spaces.KernelShared | os/kernel/mm/user_as.c:77-83 | PML4s with the same entries 256-511 have the same kernel half: translations and effective rights |
| Spaces.TemplateGood | os/kernel/mm/user_as.c:40-60 | a copy of the active PML4's high entries is a template for no spaces yet |
| Spaces.OutsideKeeps | os/kernel/mm/user_as.c:27-37 | frames outside all tables can be taken and written without any space noticing |
| Spaces.RootKeeps | os/kernel/mm/user_as.c:63-89 | a cleared frame with the template's high entries is one new, empty space |
| Spaces.LinkKeeps | os/kernel/mm/user_as.c:92-101 | hanging an empty P, W, U table keeps the invariant of all spaces and every mapping |
| Spaces.LinkOthers | os/kernel/mm/user_as.c:92-101 | a new table in one space changes what no other space misses |
| Spaces.UpperPart | os/kernel/mm/user_as.c:92-108 | a mapping that runs out has given no page its last table |
| Spaces.OpenRights | os/kernel/mm/user_as.c:92-137 | below upper entries that carry P, W and U, the rights AND-ed over four levels (NX by OR) are those of the leaf |
| Spaces.LeafKeeps | os/kernel/mm/user_as.c:132-137 | a leaf store changes one page of one space: its frame and its effective rights |
| SpaceLog.Isolation | os/kernel/mm/user_as.c:63-160 | over any run, a page of a space is left alone by every call that does not map that page of that space |
| SpaceLog.LastCall | os/kernel/mm/user_as.c:111-160 | a page has exactly the frame and the rights of its last successful mapping call |
| SpaceLog.NeverBoth | os/kernel/mm/user_as.c:132-137 | if no call asks for writable and executable, no low-half page is ever both |
| UserAs.Layout | os/kernel/mm/user_as.c:223-286 | the three process addresses are three different pages, and what their mapping calls ask for |
| UserAs.OpsNeverBoth | os/kernel/mm/user_as.c:111-160 | over the calls of a run: if none asks for writable and executable, no low-half page becomes both |
| UserAs.OpsIsolate | os/kernel/mm/user_as.c:63-160 | over the calls of a run: a page that none of them names keeps its mapping |
| UserAs.PricedFits | os/kernel/mm/user_as.c:111-137 | the tables a page misses in memory and the cost counted from the calls decide success alike |
| UserAs.PricedMapped | os/kernel/mm/user_as.c:111-137 | after a mapping the tables in memory are those counted from the calls |
| UserAs.PricedFailed | os/kernel/mm/user_as.c:111-137 | after a mapping that ran out, pages with all their tables are still exactly those counted |
| UserAs.PricedMade | os/kernel/mm/user_as.c:63-89 | a new space starts with three tables missing on every path, and others do not change |
| UserAs.SecondCosts | os/kernel/mm/user_as.c:223-286 | once the code page is mapped, each stack page misses one table |
| UserAs.ThirdCosts | os/kernel/mm/user_as.c:223-286 | once the first stack page is mapped, the second misses none |
| UserAs.NewProcess | os/kernel/mm/user_as.c:223-286 | a new process has exactly three low-half pages: code at 0x10000 to read and execute, stack at 0x800000 and 0x801000 to read and write |
| UserAs.KernelHalf | os/kernel/mm/user_as.c:54-57 | entries 256-511 are the upper half of the address space |
| UserAs.EightFrames | os/kernel/mm/user_as.c:223-286 | the frames a process takes are three data frames and five new tables, eight in all |
| UserAs.NextCopied | os/kernel/mm/user_as.c:246-248 | a byte store puts one more byte of the program in place and changes no other byte of the frame |
| UserAs.UserAs.constructor | os/kernel/mm/user_as.c:40-46 | before the template is made there are no spaces |
| UserAs.UserAs.CopyHigh | os/kernel/mm/user_as.c:54-57 | the loop copies entries 256-511 and writes nothing else |
| UserAs.UserAs.InitTemplate | os/kernel/mm/user_as.c:40-60 | the template's kernel half is that of the active tables; it is missing exactly when no frame was left |
| UserAs.UserAs.AllocZeroed | os/kernel/mm/user_as.c:27-37 | a cleared frame that no table uses; no space changes |
| UserAs.UserAs.Create | os/kernel/mm/user_as.c:63-89 | one new space with the kernel half and an empty low half, from one frame; 0 exactly without a template or a frame |
| UserAs.UserAs.LinkTable | os/kernel/mm/user_as.c:99-101 | the new table is hung below one slot, and no mapping of any space changes |
| UserAs.UserAs.MakeTable | os/kernel/mm/user_as.c:95-101 | succeeds exactly when a frame is left, and gives a table to exactly the pages below that entry |
| UserAs.UserAs.AlreadyOpen | os/kernel/mm/user_as.c:102-105 | an entry that is present already has the user bit, so setting it again changes nothing |
| UserAs.UserAs.GetOrMake | os/kernel/mm/user_as.c:92-108 | the next table on the walk, made on demand; no mapping of any space changes |
| UserAs.UserAs.WalkDown | os/kernel/mm/user_as.c:120-130 | the three table steps succeed if and only if the free frames cover the missing tables; they change no mapping and nothing in other spaces |
| UserAs.UserAs.SetLeaf | os/kernel/mm/user_as.c:132-137 | one page of one space gets the leaf's frame and rights |
| UserAs.UserAs.MapAt | os/kernel/mm/user_as.c:111-160 | succeeds if and only if the free frames cover the missing tables; one page of one space changes on success, nothing on failure |
| UserAs.UserAs.CopyBytes | os/kernel/mm/user_as.c:246-248 | the loop stores the first 4096 bytes of the program at the start of the frame; all other bytes and frames stay |
| UserAs.UserAs.Map4k | os/kernel/mm/user_as.c:111-160 | the page gets exactly the frame and the effective rights asked for; only table frames are written; no other space misses a table more or less |
| UserAs.UserAs.CopyPayload | os/kernel/mm/user_as.c:240-248 | the same on a data frame; no space changes |
| UserAs.UserAs.AllocThree | os/kernel/mm/user_as.c:223-286 | three distinct cleared data frames if and only if three are left |
| UserAs.UserAs.MapThree | os/kernel/mm/user_as.c:223-286 | the three mappings need exactly four tables in an empty space |
| UserAs.UserAs.Populate | os/kernel/mm/user_as.c:240-282 | copy and three mappings succeed if and only if four frames are left; the frames taken are exactly the new tables |
| UserAs.UserAs.Fill | os/kernel/mm/user_as.c:231-282 | data frames, copy and mappings succeed if and only if seven frames are left |
| UserAs.UserAs.CreateProcess | os/kernel/mm/user_as.c:223-286 | without a template nothing happens; with one it succeeds if and only if 8 frames are available; the eight frames taken are the three data frames and five new tables; the low half of the new space is exactly code at 0x10000 (read, execute) and stack at 0x800000 and 0x801000 (read, write), with the program in otherwise zero frames; no other space changes; a failure leaves no frame free |
| UserAs.UserAs.DoOne | os/kernel/mm/user_as.c:63-160 | one creation or mapping is done if and only if the frames left cover its cost, counted from the earlier calls, and then has the effect of its event |
| UserAs.UserAs.Run | os/kernel/mm/user_as.c:63-160 | any sequence of space creations and low-half mappings: which calls are done and how many frames are left is a function of the calls and the frames at the start; the low halves change exactly as the log of events says, pages no call names keep their mappings, nothing becomes writable and executable unless a call asks for both, the kernel half never changes, spaces made are new and distinct |
| UserAs.UserAs.KernelEverywhere | os/kernel/mm/user_as.c:63-89 | in every reachable state each space has the template's kernel half |
| UserAs.UserAs.SpacesDisjoint | os/kernel/mm/user_as.c:63-160 | low-half walks that read the same frame belong to the same space |
| WriteEnable.WalkIsHardware | os/kernel/mm/paging.c:130-161 | on any memory the walk finds the leaf the hardware uses, with its size, and fails exactly when there is no translation |
| WriteEnable.TranslationKept | os/kernel/mm/paging.c:163-202 | setting writable bits, in shared or cyclic tables too, keeps every address's leaf, size and frame |
| WriteEnable.RangeCovered | os/kernel/mm/paging.c:209-220 | the loop's pages cover every byte from start to end if and only if rounding the end up does not wrap (or there is none) |
| WriteEnable.VisitedExact | os/kernel/mm/paging.c:209-220 | the pages visited are exactly those of the bytes from start to end; a range whose end cannot be rounded up is skipped, and an empty one inside a page stands for that page |
| WriteEnable.ToBytes | os/kernel/mm/paging.c:205-228 | what the pass does page by page, told by the bytes of the range |
| WriteEnable.StaysWritable | os/kernel/mm/paging.c:163-202 | a writable leaf stays one |
| WriteEnable.EffectiveWrite | os/kernel/mm/paging.c:163-202 | the processor lets a page be written if and only if its leaf and every entry above it are writable |
| WriteEnable.NextLeaf | os/kernel/mm/paging.c:220-225 | only leaf entries of the range's pages, found in the tables as they were at the start, have changed |
| WriteEnable.Paging.MakeWritable | os/kernel/mm/paging.c:163-202 | succeeds exactly for a translated address; only the writable bit of its leaf entry can change, and is set |
| WriteEnable.Paging.EnableRange | os/kernel/mm/paging.c:205-228 | completes if and only if the page of every byte of the range is translated; then every one has a writable leaf, and can be written if and only if the entries above are writable, which the code leaves alone; every changed entry is the leaf of such a byte, and only its writable bit changes |
| UserMapping.UserBitWalk | os/kernel/mm/user_mapping.c:70-73 | setting the user bit of an upper entry changes no translation, no missing table and no blocked walk |
| UserMapping.UserBitRights | os/kernel/mm/user_mapping.c:70-73 | a user bit set on the way changes no page's write or execute rights and takes no user access away |
| UserMapping.LinkKeepsRights | os/kernel/mm/user_mapping.c:55-69 | a new table changes no mapped page's rights |
| UserMapping.UserBitKeepsRights | os/kernel/mm/user_mapping.c:70-73 | of all mapped pages, user access may be added up to what the leaf allows, and nothing else changes |
| UserMapping.LeafKeepsRights | os/kernel/mm/user_mapping.c:116-117 | a leaf store changes the rights of its own page only |
| UserMapping.UserBitNearly | os/kernel/mm/user_mapping.c:70-73 | setting a user bit outdates cached items in nothing but user access |
| UserMapping.LinkNearly | os/kernel/mm/user_mapping.c:55-69 | linking a table outdates none |
| UserMapping.LeafNearly | os/kernel/mm/user_mapping.c:226-231 | a leaf store and the flush of its page leave the other cached items as right as they were |
| UserMapping.UserReaches | os/kernel/mm/user_mapping.c:55-76 | user bits on every level of the walk give users effective access to a user leaf |
| UserMapping.HugeBlocks | os/kernel/mm/user_mapping.c:98-111 | a page mapped by a 2M or 1G page is one the mapping code refuses |
| UserMapping.SiblingBlocked | os/kernel/mm/user_mapping.c:98-111 | pages below one level-2 entry are blocked together |
| UserMapping.LinkWidens | os/kernel/mm/user_mapping.c:55-69 | a new table is counted by exactly the walks below it, and no page gets blocked or unblocked |
| UserMapping.ThreeWidened | os/kernel/mm/user_mapping.c:94-114 | the three steps of a mapping make exactly the tables of its own path |
| UserMapping.LeafBounds | os/kernel/mm/user_mapping.c:207-235 | effective rights are never more than the leaf's |
| UserMapping.Layout | os/kernel/mm/user_mapping.c:133-170 | the three user addresses are three different pages, and the leaf entries their calls store |
| UserMapping.RoomMeans | os/kernel/mm/user_mapping.c:152-167 | all three pages get mapped if and only if no walk is blocked and the frames cover the tables they miss together |
| UserMapping.OutcomeIs | os/kernel/mm/user_mapping.c:152-167 | which of the three pages a setup maps and how many frames it leaves: the code page exactly if its own walk allows, it alone if the stack cannot follow |
| UserMapping.ActiveTables.constructor | os/kernel/mm/user_mapping.c:82-84 | tree-shaped active tables disjoint from the allocator's frames, with nothing cached, meet the invariant |
| UserMapping.ActiveTables.AllocTable | os/kernel/mm/user_mapping.c:57-64 | a cleared frame outside every table; no translation changes |
| UserMapping.ActiveTables.LinkTable | os/kernel/mm/user_mapping.c:66-67 | the table is hung below one slot; no translation changes |
| UserMapping.ActiveTables.MakeTable | os/kernel/mm/user_mapping.c:56-69 | succeeds exactly when a frame is left; the entry lets users pass |
| UserMapping.ActiveTables.AllowUser | os/kernel/mm/user_mapping.c:70-73 | the user bit is set; no translation changes, and of other pages' rights only user access may grow, up to the leaf's |
| UserMapping.ActiveTables.GetOrMake | os/kernel/mm/user_mapping.c:55-76 | the next table on the walk with user bits on every level so far; no translation changes, other pages keep write and execute rights; no frame is taken for a table that is there |
| UserMapping.ActiveTables.BlockedHere | os/kernel/mm/user_mapping.c:98-111 | the page-size tests on the way decide exactly whether a large page blocks the walk |
| UserMapping.ActiveTables.WalkDown | os/kernel/mm/user_mapping.c:94-114 | the walk gets to the level-1 table if and only if no large page blocks it and the free frames cover the missing tables; no translation changes |
| UserMapping.ActiveTables.SetLeaf | os/kernel/mm/user_mapping.c:116-121 | one key of the page map changes, and after the full flush no cached item is out of date |
| UserMapping.ActiveTables.MapAt | os/kernel/mm/user_mapping.c:79-125 | done if and only if no large page blocks the walk and the free frames cover the missing tables; a failure changes no translation, a success only its own page; other pages keep write and execute rights and gain user access at most up to the leaf; a blocked call takes no frame; after a success no cached item is stale, after a failure at most in lacking user access |
| UserMapping.ActiveTables.MapUser4k | os/kernel/mm/user_mapping.c:79-125 | the same for any address and any flags; a present page is then accessible to users through all four levels |
| UserMapping.ActiveTables.MapThree | os/kernel/mm/user_mapping.c:152-167 | exactly which of the three pages are mapped and how many frames are left, in every case; other pages keep translation, write and execute rights |
| UserMapping.ActiveTables.Setup | os/kernel/mm/user_mapping.c:128-175 | with fewer than three frames the held set, the statistics and the page map are restored; otherwise exactly which pages are mapped, how many frames are left and that the three data frames stay taken, on late failures too; a success reports 0x400000 and 0x802000, with a writable code page and a writable, non-executable stack there |
| UserMapping.ActiveTables.MakeExecutable | os/kernel/mm/user_mapping.c:207-235 | on any memory one word loses its writable and no-execute bits; for a page with a 4K leaf the page keeps its frame, no other page changes, and nothing cached is stale that was not before |
| UserMapping.ActiveTables.ProtectedLeaf | os/kernel/mm/user_mapping.c:207-235 | a leaf that is not writable, or not executable, gives an effective page that is not both |
| UserMapping.ActiveTables.BuildUser | os/kernel/mm/user_mapping.c:128-235 | setup followed by the switch to executable, with the exact condition for success: the code page keeps its frame, none of the three user pages is both writable and executable, nothing cached is stale, and other pages keep their translations and rights but for added user access |
| PmmBitmap.FirstFreeIs | os/kernel/mm/pmm.c:58-59 | the reference scan from a page on finds the lowest free one |
| PmmBitmap.FirstRunIs | os/kernel/mm/pmm.c:109-118 | the reference scan finds the lowest all-free run of the length asked |
| PmmBitmap.SkipUsed | os/kernel/mm/pmm.c:58-109 | when all pages below the hint are used, a search from the hint finds what a search from page 0 finds, for pages and for runs |
| PmmBitmap.AllocKeeps | os/kernel/mm/pmm.c:56-75 | a page allocation keeps the invariant: pages below the hint used, counters equal to the bitmap's count |
| PmmBitmap.FreeKeeps | os/kernel/mm/pmm.c:77-100 | so does every page free, valid or not |
| PmmBitmap.AllocPagesKeeps | os/kernel/mm/pmm.c:103-134 | so does a run allocation of any length |
| PmmBitmap.FreePagesKeeps | os/kernel/mm/pmm.c:136-140 | so does a run free |
| PmmBitmap.FreeExact | os/kernel/mm/pmm.c:77-100 | freeing a used page other than page 0 clears exactly its flag, moves 4096 bytes between the counters and lowers the hint to it; any other address is ignored |
| PmmBitmap.FreedAgain | os/kernel/mm/pmm.c:56-100 | the next allocation after a free returns that page or a lower one, and that page if all below are used |
| PmmBitmap.AllocExact | os/kernel/mm/pmm.c:56-75 | an allocation takes exactly the lowest free page and 4096 bytes, and moves the hint past it if it was the hint |
| PmmBitmap.AllocPagesExact | os/kernel/mm/pmm.c:103-134 | a run allocation takes exactly the lowest free run and its bytes and leaves the hint; a request for none takes none |
| PmmBitmap.FreePagesExact | os/kernel/mm/pmm.c:136-140 | freeing a run clears exactly the flags of its pages, in 64-bit addresses, other than page 0 |
| PmmBitmap.BootSequence | os/kernel/mm/pmm.c:43-75 | the first 8192 allocations after boot take the pages in order, with both counters after each |
| PmmBitmap.RunSafe | os/kernel/mm/pmm.c:43-140 | over every run from boot: pages below the hint are used, free + used memory is the total, free memory is a constant plus 4096 times the clear bits, and neither counter underflows |
| PmmBitmap.AllocUndone | os/kernel/mm/pmm.c:56-100 | a page other than page 0 allocated and freed again restores bitmap, hint and counters exactly |
| PmmBitmap.AllocPagesUndone | os/kernel/mm/pmm.c:103-140 | so does a run that does not start at page 0 |
| PmmBitmap.FreeMarked | os/kernel/mm/pmm.c:136-140 | freeing a marked run gives back the bitmap before the marking |
| PmmBitmap.Page0Stays | os/kernel/mm/pmm.c:77-80 | once used, page 0 is never freed |
| PmmBitmap.BootReports0 | os/kernel/mm/pmm.c:56-134 | with all pages free, an allocation of any number of pages takes them from page 0 on and returns 0 |
| PmmBitmap.FirstTakes0 | os/kernel/mm/pmm.c:56-134 | in every run, page 0 is used once an allocation was made; before that the state is that at boot |
| PmmBitmap.ZeroWith0Used | os/kernel/mm/pmm.c:69-133 | with page 0 used, a 0 result means, both ways, that there is no free run of that length |
| PmmBitmap.ZeroMeansNone | os/kernel/mm/pmm.c:69-133 | over every run: a 0 result means that there is no free run of that length if and only if an allocation was made before |
| PmmBitmap.OneBit | os/kernel/mm/pmm.c:22-38 | setting or clearing one bit of a byte leaves the other seven |
| PmmBitmap.FlagSet | os/kernel/mm/pmm.c:22-32 | the byte expressions change exactly one page's flag |
| PmmBitmap.Bitmap.constructor | os/kernel/mm/pmm.c:43-54 | a zeroed bitmap with the boot figures meets the invariant |
| PmmBitmap.Bitmap.SetUsed | os/kernel/mm/pmm.c:22-26 | marks one page |
| PmmBitmap.Bitmap.SetFree | os/kernel/mm/pmm.c:28-32 | clears one page |
| PmmBitmap.Bitmap.IsFree | os/kernel/mm/pmm.c:34-38 | reads one page's flag |
| PmmBitmap.Bitmap.AllocPageHinted | os/kernel/mm/pmm.c:56-75 | the search from the hint over bytes does exactly what the scan from page 0 over flags does |
| PmmBitmap.Bitmap.FreePageAt | os/kernel/mm/pmm.c:77-100 | address 0, misaligned, out-of-range and free pages are ignored; else one page, the hint and the counters change |
| PmmBitmap.Bitmap.RegionFree | os/kernel/mm/pmm.c:110-118 | the inner loop decides whether all pages of the region are free |
| PmmBitmap.Bitmap.MarkRegion | os/kernel/mm/pmm.c:122-124 | marks exactly the region |
| PmmBitmap.Bitmap.AllocPagesHinted | os/kernel/mm/pmm.c:103-134 | the nested search from the hint takes the lowest all-free run, as the scan from page 0 does |
| PmmBitmap.Bitmap.FreePagesAt | os/kernel/mm/pmm.c:136-140 | the loop, in 64-bit addresses, is the page-by-page free |
| Heap.KmallocSound | os/kernel/mm/vmm.c:188-213 | a block lies inside the 1 MB window if and only if heap pointer plus rounded size stays below 2^64 |
| Heap.KmallocExact | os/kernel/mm/vmm.c:188-213 | exactly what any request does: a block if pointer plus rounded size stays below the 1 MB limit, and the pointer moves by that much; nothing above it; a sum of 2^64 or more wraps and passes |
| Heap.SafeSizes | os/kernel/mm/vmm.c:188-213 | sizes up to 0x7EF00000 meet that condition in every state, and the pointer never moves back |
| Heap.WrapOverlaps | os/kernel/mm/vmm.c:203-210 | a concrete larger size after which two blocks overlap |
| Heap.BlocksApart | os/kernel/mm/vmm.c:188-213 | over any sequence of requests of safe size, blocks are 8-aligned, inside the window and pairwise disjoint |
| Heap.AllFit | os/kernel/mm/vmm.c:188-213 | requests that together stay below 1 MB are all met, one after the other without gaps |
| Heap.StackCapacity | os/kernel/mm/vmm.c:188-213 | from a fresh heap exactly the first 127 requests of 8192 bytes are met |
| Heap.KernelHeap.constructor | os/kernel/mm/vmm.c:194-201 | the pointer starts unset |
| Heap.KernelHeap.Alloc | os/kernel/mm/vmm.c:188-213 | one request on the static pointer, with its block in the window for a safe size |
| QueueModel.Waiting | os/kernel/sched/thread.c:252-297 | a thread at queue index k moves up one place per handover and is current after exactly k + 1, whatever is created meanwhile |
| QueueModel.WithinTicks | os/kernel/sched/thread.c:282-297 | it runs within 10 k plus the current slice ticks |
| QueueModel.BoundedWaiting | os/kernel/sched/thread.c:252-297 | and so within 10 (k + 1) ticks |
| QueueModel.StepConserves | os/kernel/sched/thread.c:157-279 | one event loses and doubles no thread |
| QueueModel.Conserved | os/kernel/sched/thread.c:157-297 | over every run, the times a thread runs or waits are its creations minus its exits |
| QueueLaws.NineTicks | os/kernel/sched/thread.c:282-297 | no tick before the tenth of a slice hands over |
| QueueLaws.Service | os/kernel/sched/thread.c:282-297 | over any run of ticks and creations, until a tick numbered ten or more finds somebody waiting, the running thread stays, its slice after n ticks is max(10 - n, 0) whether or not anybody waits, and new threads join the tail |
| QueueLaws.Handover | os/kernel/sched/thread.c:282-297 | that tick, and no earlier one, hands over to the head of the queue with a slice of 10, and the old thread waits behind all others unless it is idle |
| QueueLaws.FullCircle | os/kernel/sched/thread.c:252-279 | each yield turns the circle of threads by one place; after one yield of each, everybody is back |
| QueueLaws.AloneWithIdle | os/kernel/sched/thread.c:252-279 | a thread that yields alone lets idle run and is back after the next yield; idle alone stays |
| QueueLaws.NotQueued | os/kernel/sched/thread.c:157-279 | idle is never queued, nor is a thread that exits |
| QueueSched.AppendChained | os/kernel/sched/thread.c:111-122 | writing the two end links of a list makes a list with one more member at the tail |
| QueueSched.CutChained | os/kernel/sched/thread.c:125-140 | bridging over a member makes a list without it |
| QueueSched.Thread.constructor | os/kernel/sched/thread.c:168-249 | a thread starts ready, unlinked, with a full slice |
| QueueSched.Scheduler.constructor | os/kernel/sched/thread.c:92-108 | a scheduler with an empty queue and table whose idle thread runs meets the invariant |
| QueueSched.Scheduler.AddToReadyQueue | os/kernel/sched/thread.c:111-122 | the linked structure stands for the old sequence with the thread appended |
| QueueSched.Scheduler.UnlinkForward | os/kernel/sched/thread.c:125-140 | the forward links and the head bridge over the member |
| QueueSched.Scheduler.UnlinkBackward | os/kernel/sched/thread.c:125-140 | so do the backward links and the tail |
| QueueSched.Scheduler.ClearLinks | os/kernel/sched/thread.c:138-139 | clearing a bridged member's own links leaves the others' links alone |
| QueueSched.Scheduler.Unlink | os/kernel/sched/thread.c:125-140 | both, and the member's own links are cleared |
| QueueSched.Scheduler.RemoveFromReadyQueue | os/kernel/sched/thread.c:125-140 | any member, first, middle, last or only, is deleted from the sequence |
| QueueSched.Scheduler.GetNextThread | os/kernel/sched/thread.c:143-150 | pops the head, or gives idle for an empty queue |
| QueueSched.Scheduler.Choose | os/kernel/sched/thread.c:252-262 | the next thread, with everybody else still waiting, idle or a zombie |
| QueueSched.Scheduler.Requeue | os/kernel/sched/thread.c:263-268 | the old thread joins the tail exactly when it is still running and not idle |
| QueueSched.Scheduler.Dispatch | os/kernel/sched/thread.c:269-279 | the chosen thread runs with a full slice and the partition holds |
| QueueSched.Scheduler.SchedYield | os/kernel/sched/thread.c:252-279 | is the handover of the value model, from a running thread or a new zombie; no zombie comes back |
| QueueSched.Scheduler.YieldNow | os/kernel/sched/thread.c:252-279 | keeps the partition: every live thread is current or queued exactly once, queued ones are ready, only current and idle can be running |
| QueueSched.Scheduler.ExitNow | os/kernel/sched/thread.c:157-161 | the thread becomes a zombie, is neither current nor queued, and stays one |
| QueueSched.Scheduler.SchedTick | os/kernel/sched/thread.c:282-297 | is the tick of the value model: the slice never wraps, and a handover happens when it is used up and somebody waits |
| QueueSched.Scheduler.TakeSlot | os/kernel/sched/thread.c:235-242 | the thread gets the next table slot if and only if fewer than seven were taken; all other slots keep their threads |
| QueueSched.Scheduler.TakeMemory | os/kernel/sched/thread.c:174-189 | structure and stack come from the heap and do not overlap; a structure without a stack is lost |
| QueueSched.Scheduler.Enroll | os/kernel/sched/thread.c:244-245 | a new thread joins the tail and the partition holds |
| QueueSched.Scheduler.Admit | os/kernel/sched/thread.c:191-245 | a new ready thread with a full slice joins the tail, and gets a table slot if one is left |
| QueueSched.Scheduler.ThreadCreate | os/kernel/sched/thread.c:168-249 | creates a thread if and only if both heap requests succeed, whatever the table holds; otherwise nothing but the heap changes |
| TableModel.SearchIs | os/kernel/sched/thread_minimal.c:311-319 | the cyclic search returns the first READY slot in cyclic order, and nothing exactly when there is none |
| TableModel.FindNextIs | os/kernel/sched/thread_minimal.c:297-320 | with a thread running, the next one is the READY thread at the least cyclic distance |
| TableModel.FindNextNone | os/kernel/sched/thread_minimal.c:297-320 | the answer is nobody if and only if nobody is READY, which the early return on the thread counter does not spoil |
| TableModel.YieldKeeps | os/kernel/sched/thread_minimal.c:100-121 | a yield keeps the invariant: current is the only RUNNING slot, slices of occupied slots are in 1..10, the counter bounds the READY and RUNNING slots, stacks lie apart |
| TableModel.ChargeIs | os/kernel/sched/thread_minimal.c:130-139 | the unsigned decrement of the slice never wraps |
| TableModel.CleanupKeeps | os/kernel/sched/thread_minimal.c:323-339 | the zombie cleanup keeps the invariant |
| TableModel.TickKeeps | os/kernel/sched/thread_minimal.c:124-145 | so does a tick |
| TableModel.FreeSlotIs | os/kernel/sched/thread_minimal.c:155-162 | the slot search finds the lowest free slot |
| TableModel.StackKeeps | os/kernel/sched/thread_minimal.c:169-174 | a new stack lies above all earlier ones, and fewer than 128 are ever made |
| TableModel.CreateKeeps | os/kernel/sched/thread_minimal.c:148-228 | thread creation keeps the invariant, with no slot or no memory left too |
| TableModel.StartKeeps | os/kernel/sched/thread_minimal.c:231-248 | starting the scheduler keeps the invariant if and only if no thread is current or nobody is READY; otherwise two threads are RUNNING |
| TableModel.RunDirectKeeps | os/kernel/sched/thread_minimal.c:251-270 | running threads directly keeps it under the same condition, and only then |
| TableModel.StepKeeps | os/kernel/sched/thread_minimal.c:100-270 | so does every step |
| TableModel.RunKeeps | os/kernel/sched/thread_minimal.c:62-339 | the invariant holds in every state of every run |
| TableModel.InitKeeps | os/kernel/sched/thread_minimal.c:62-92 | the empty table of any size, on a heap used before or not, meets it: every slot free, no ticks, not started |
| TableModel.CreateOwn | os/kernel/sched/thread_minimal.c:169-205 | a new thread gets a stack and an id of its own and starts on that stack |
| TableModel.RunOwn | os/kernel/sched/thread_minimal.c:62-339 | in every run each thread in the table keeps the stack made with it |
| TableModel.StacksDisjoint | os/kernel/sched/thread_minimal.c:169-177 | over any run with other heap requests in between, all stacks ever made are disjoint |
| TableModel.ThreadsApart | os/kernel/sched/thread_minimal.c:169-205 | over any run, two threads in the table never share stack memory, and each initial stack pointer is 16-aligned, 16 to 31 bytes below the top of its own stack |
| TableModel.YieldCloser | os/kernel/sched/thread_minimal.c:100-121 | a yield runs a waiting thread or strictly lowers its cyclic distance |
| TableModel.TickCloser | os/kernel/sched/thread_minimal.c:124-145 | a tick runs it or strictly lowers the ticks left |
| TableModel.StepCloser | os/kernel/sched/thread_minimal.c:100-228 | no step, creations ahead of it included, sets it back |
| TableModel.Arrives | os/kernel/sched/thread_minimal.c:100-145 | enough ticks or enough yields, and it has run |
| TableModel.RoundRobin | os/kernel/sched/thread_minimal.c:100-145 | with N slots a READY thread runs within N - 1 yields and within 10 (N - 1) ticks, whatever else happens |
| TableModel.FinishResurrects | os/kernel/sched/thread_minimal.c:273-288 | a thread that finishes stays a zombie if and only if no other thread is READY; otherwise the yield makes it READY again |
| TableModel.FinishExample | os/kernel/sched/thread_minimal.c:273-288 | two threads, the first finishes, and its slot is READY again |
| TableModel.PassiveStep | os/kernel/sched/thread_minimal.c:100-228 | without a current thread, a step other than a start or a direct run leaves every READY thread READY and nobody current |
| TableModel.StartedTooEarly | os/kernel/sched/thread_minimal.c:231-248 | without a current thread, over every run without a start or a direct run, nobody runs and every READY thread stays READY |
| TableModel.TooEarlyExample | os/kernel/sched/thread_minimal.c:231-248 | started on an empty table: a thread created afterwards is READY and nobody is current |
| TableLaws.YieldIs | os/kernel/sched/thread_minimal.c:100-121 | a yield hands over if and only if somebody is READY: the yielding thread keeps its slot and is READY, the READY one at the least distance is RUNNING, and nothing else changes |
| TableLaws.ChargeExact | os/kernel/sched/thread_minimal.c:130-139 | a tick costs the running thread one unit; the last one brings a new slice of 10 and a handover if somebody is READY |
| TableLaws.CleanupIs | os/kernel/sched/thread_minimal.c:323-339 | the cleanup frees every slot that holds a zombie and touches no other |
| TableLaws.TickIs | os/kernel/sched/thread_minimal.c:124-145 | ticks are counted in 32 bits from the start of the scheduler; after every hundredth no zombie holds a slot; the rest is the charge of the running thread |
| TableLaws.CreateIs | os/kernel/sched/thread_minimal.c:148-228 | a thread is created if and only if a slot is free and its stack ends before the heap limit: in the lowest free slot, READY, with the next id, a slice of 10 and its own stack; no other slot changes |
| TableLaws.StartIs | os/kernel/sched/thread_minimal.c:231-248 | a start without a current thread runs the READY thread in the lowest slot and changes nothing else |
| TableLaws.RunDirectIs | os/kernel/sched/thread_minimal.c:251-270 | a direct run ends every READY thread and touches no other |
| TableLaws.FinishIs | os/kernel/sched/thread_minimal.c:273-288 | a finishing thread is counted out, its slot keeps it, and a READY one runs next |
| TableLaws.StepConserves | os/kernel/sched/thread_minimal.c:100-248 | no step but a direct run takes a READY or RUNNING thread out of the active ones, and only a creation adds one |
| TableLaws.RunConserves | os/kernel/sched/thread_minimal.c:62-339 | over every run without a direct run, active threads stay active in their slots with their stacks, and their number grows by exactly the creations |
| TableLaws.Service | os/kernel/sched/thread_minimal.c:124-145 | while fewer ticks than its slice have passed, the running thread keeps the processor, with that many less left |
| TableLaws.ServiceEnds | os/kernel/sched/thread_minimal.c:124-145 | with the last one it gets a new slice of 10 and, if anybody was READY, hands over and is READY itself |
| TableSched.Scheduler.constructor | os/kernel/sched/thread_minimal.c:62-92 | the table array starts as the empty table |
| TableSched.Scheduler.FindNextThread | os/kernel/sched/thread_minimal.c:297-320 | the loop with remainders is the cyclic search |
| TableSched.Scheduler.SchedYield | os/kernel/sched/thread_minimal.c:100-121 | the in-place yield is that of the value model |
| TableSched.Scheduler.CleanupZombies | os/kernel/sched/thread_minimal.c:323-339 | the loop frees exactly the zombie slots |
| TableSched.Scheduler.ChargeCurrent | os/kernel/sched/thread_minimal.c:130-139 | slice, reload and forced yield as in the value model |
| TableSched.Scheduler.SchedTick | os/kernel/sched/thread_minimal.c:124-145 | the tick, with its cleanup every 100 ticks, as in the value model |
| TableSched.Scheduler.FindFreeSlot | os/kernel/sched/thread_minimal.c:155-162 | the loop is the slot search |
| TableSched.Scheduler.ThreadCreate | os/kernel/sched/thread_minimal.c:148-228 | the new table, counters, heap and stacks are those of the value model; the id is 0 exactly when nothing was created |
| TableSched.Scheduler.SchedStart | os/kernel/sched/thread_minimal.c:231-248 | is the start of the value model and keeps the invariant exactly under its condition; the first READY thread runs, nobody exactly when nobody is READY |
| TableSched.Scheduler.RunThreads | os/kernel/sched/thread_minimal.c:251-270 | every READY thread ends as a zombie, and nobody is current if any was run; keeps the invariant exactly under the condition |
| Bits.FieldOps | os/kernel/mm/paging.c:8-19 | or, and, and-not act on each bit field separately |
| Bits.AndBit | os/kernel/mm/paging.c:8-17 | masking with one bit isolates that bit |
| Bits.AndShifted | os/kernel/mm/paging.c:19 | masking with a shifted mask is masking the shifted word |
| Bits.ShrIsDiv | os/kernel/mm/paging.c:125-128 | shifting right is division by a power of two |
| Bits.AndOnes | os/kernel/mm/paging.c:125-128 | masking with ones keeps the low bits |
| PteWords.WordRoundTrip | os/kernel/mm/paging.c:8-19 | decoding a 64-bit entry word to a record and encoding it again gives the word |
| PteWords.RecordRoundTrip | os/kernel/mm/paging.c:8-19 | and the other way round: words and records are in one-to-one correspondence |
| PteWords.FlagUpdates | os/kernel/mm/user_mapping.c:70-73 | setting or clearing a flag of the word changes that one field of the record |
| PteWords.FlagTests | os/kernel/mm/paging.c:135-157 | testing a flag of the word reads that field |
| PteWords.AddressOfEntry | os/kernel/mm/vmm.c:63-65 | masking the word gives the address of the record's frame |
| PteWords.AddressOrFlags | os/kernel/mm/vmm.c:124 | any page address or-ed with any flags: rights and low bits from the flags, address bits or-ed together |
| PteWords.AddressWithFlags | os/kernel/mm/vmm.c:124 | an address or-ed with flags without address bits has that frame and those flags |
| PteWords.LeafForIs | os/kernel/mm/vmm.c:124 | the entry vmm_map_page stores has the rights of the flags, and the frame asked for if and only if the flags have no address bit that the address lacks |
| PteWords.LeafWord | os/kernel/mm/vmm.c:124 | for flags without address bits and an address below 2^52 it is the flags with the frame put in |
| PteWords.UserLeafIs | os/kernel/mm/user_mapping.c:116-117 | the same two facts for the entry map_user_4k stores |
| PteWords.UserLeafWord | os/kernel/mm/user_mapping.c:116-117 | for flags without address bits it is the flags with the frame and the user bit put in |
| PteWords.LinkWords | os/kernel/mm/vmm.c:103 | the words stored for new tables, kernel and user, are the model's upper entries |
| PteWords.UserFlagsAre | os/kernel/mm/user_as.c:132-135 | the flags built by user_map_4k_in_pml4 are the rights asked for |
| PteWords.UserAsLeafWord | os/kernel/mm/user_as.c:132-137 | the word it stores is the model's leaf entry, with address bits above 51 dropped |
| PteWords.IndexWords | os/kernel/mm/vmm.c:9-12 | the index macros, a shift and a mask, are the four indices of the page |
| PteWords.WithByteIs | os/kernel/mm/user_as.c:246-248 | a store to one byte of a word changes that byte and no other |

## Left out

- Serial output, `kprintf`, port I/O, debug walks and statistics printing: output only.
- Assembly and machine control (context switch, CR3, MSR, GDT, IDT, entering user mode): a context switch is scheduler bookkeeping, `invlpg` one step on the caches, a CR3 value a parameter.
- System calls, `pmm_minimal.c`, `pmm_test.c`, `arch/x86_64/paging.c`, LAPIC and timer code: stubs, tables or drivers.
- `kfree` is a no-op; thread names, entry points and arguments, register contexts other than the stack pointer, run-time accounting and thread priorities decide nothing here.
- Phys-to-virt conversion is direct access to the frame; memory holds entries as records, and `PteBits.dfy` ties records to words and bytes, and the index macros to page numbers.
- `copy_user_code`, `activate_kernel_page_tables` and `switch_to_user_process`: a copy, a fill and a jump.
- Vmm.Vmm.constructor: assumes that the boot loader's tables form a tree and are disjoint from the allocator's pool, which no code checks. The same holds for UserMapping.ActiveTables.constructor and, for the kernel half, UserAs.UserAs.InitTemplate (there sharing is allowed).
- Vmm.Vmm.MapPage: under a large page the contract states the words written and that the page map does not change at exactly that key; what that does to tables it may hit, and to cached items, is not followed further. The same holds for Vmm.Vmm.UnmapPage, Vmm.Vmm.MapPages and Vmm.Vmm.UnmapPages.
- PmmSimple.Pmm.FreePage: books stay sound only for callers that free what they hold (or addresses outside the pool), because the code has no double-free or alignment check; what it does to the allocator's own data is stated for every address.
- PmmSimple.Pmm.AllocPages: books stay sound only if the byte size does not wrap past the bound check; `PmmSimple.AllocManySound` is the exact condition.
- PmmBitmap.Bitmap.AllocPagesHinted: asks for a count of at most the bitmap's pages; above that the loop bound wraps and the code reads outside the bitmap.
- UserAs.UserAs.Map4k: covers low-half addresses of a space; an address with a high index would write into the tables all spaces share.
- UserMapping.ActiveTables.MakeExecutable: says of a page without a 4K leaf only which word changes, because the code checks nothing.
- Cached items are modelled for `vmm.c` and `user_mapping.c`, which change the active tables; `user_as.c` writes inactive ones, and `mm/paging.c` only adds rights.
- Blind.LookupExact: asks that a large page over the page holds no table and is not at physical address 0, where the right answer looks like a failure.
- QueueSched.Scheduler.constructor: starts with an idle thread running, because `thread.c` never sets the current or the idle thread. The size of a thread structure is a parameter of `ThreadCreate`.
- TableModel.RunKeeps: is about runs in which the scheduler is started, and threads are run directly, only where `TableModel.StartKeeps` and `TableModel.RunDirectKeeps` say that it does no harm; other heap requests have sizes up to 0x7EF00000, and no thread takes the finish path, which `TableModel.FinishResurrects` treats on its own.
