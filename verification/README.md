# Verification of the kernel's memory stack, scheduler, file tree and rings

These modules model the stateful core of the kernel and prove what it promises: the physical
page allocator, the four-level page tables on top of it, the kernel heap, the scheduler, the
directory tree and files of tmpfs under the VFS path calls, pipes, message queues, shared
memory and the keyboard ring.  `dafny verify dfyconfig.toml` checks all of it.

How the pieces fit:

- `Words`, `FrameBits`, `Pmm`, `Ownership`, `Callers`.  A 64-bit word is a natural number with recursive
  `&` and `|`; the masks and shifts of the bitmap helpers and of the paging macros are proved
  equal to reading, setting and clearing bits and to quotients and remainders.
  `PhysicalMemory` is the allocator on its array of words, kept equal to an abstract sequence
  of used flags.  `Drift()` is how far the free counter is above the number of zero bits; every
  operation keeps it, and `pmm_init` starts it at zero exactly when no page is offered by two
  available entries.  `HintTight()` says that every page below the hint is used.
  `Callers` runs any mix of allocations, releases and shared memory calls against it.
- `Paging`, `PageTables`, `Translation`, `Ranges`, `Vmm`.  Physical memory is an array of frames of
  512 words.  `Tree` is the ownership invariant (each table hangs from one recorded slot, levels
  are disjoint) and `Mapping`/`Translate` the abstract translation, which `Translation` proves
  equal to the walk in plain arithmetic; class `Mmu` walks and edits the frames in place and
  allocates its tables from the allocator above.
- `HeapBlocks`, `HeapWords`, `HeapLive`, `Heap`.  The heap is a memory of 8-byte words; `Rep` says
  that headers, footers and links in memory spell out a list of blocks, and the list operations
  `Carve`, `Merge`, `Released` are what `kmalloc` and `kfree` must do to it; `HeapLive` says what
  they mean for the live blocks.
- `Sched`, `SchedCalls`, `Fairness`, `Scheduler`.  `Sched` is the transition system (with
  `context_switch` as the end of a step), `SchedCalls` tells its calls by who runs next, `Fairness`
  has its fairness theorems, and class `RunQueue` is the doubly linked queue whose methods refine
  the steps.
- `Paths`, `FileTree`, `PathCalls`, `Tmpfs`, `Vfs`, `TmpfsFile`.  `FileTree` is the tree as a table
  of nodes with path walks, `PathCalls` what `mkdir` and `unlink` of a path mean;
  `Tmpfs.FileSystem` is the linked inodes and `Vfs` the buffer-cutting path code that refine it;
  `TmpfsFile` is the contents of one file.
- `Pipe`, `MessageQueues`, `SharedMemory`: the rings and tables of `kernel/ipc/ipc.c`.
- `Keyboard`, `KeyHistory`: the event ring under interrupts, and the decoder told by the history
  of bytes.

What the model takes from outside: the multiboot memory map is a sequence of entries; whether
`kmalloc`/`kcalloc`/`krealloc` find room in callers that do not model the heap (`granted`) and
how much larger a block is than asked for (`slack`) are parameters; interrupts are actions
between any two statements of the reader.  `kernel_panic` is the outcome `Panicked`.  Memory is
identity mapped, as the code assumes when it dereferences physical addresses.

What the code does that its documentation does not say:

- `kfree` merges list neighbours without comparing addresses (`HeapBlocks.MergeIsExact`,
  `HeapBlocks.MergeOverGap`), so the heap theorems require, as a precondition on growth
  (`Continues`), that the pages the allocator hands to `heap_expand` start where the last block
  ends.  A refused growth keeps the pages it took: `Kmalloc` states the loss.
- `include/kernel/types.h:75` comments `KERNEL_PHYS_BASE` as 1 MiB; its value, which the model
  uses, is 16 MiB.
- Payloads are 8-byte aligned: the header has 40 bytes, so the rounding of sizes to 16
  (`kernel/mm/kheap.c:104-105`) does not align addresses to 16 (`Heap.PayloadAlignment` has the
  exact condition, `Heap.FirstPayloadInPage` an instance).
- `docs/architecture.md:150` says that a lower number is a higher priority; the code charges
  `256 - priority` per tick, so lower numbers get less CPU (`Fairness.SmallerNumberPaysMore`,
  `Fairness.LargerNumberIsFavoured`; an instance is `Fairness.SmallerNumberIsSlower`).  Fairness is
  stated with that weight.
- `sched_yield` marks the current process ready whatever its state was, which undoes
  `sched_sleep` and `proc_exit` of the current process (`Sched.SleepIsUndone`,
  `Sched.ExitOnlyOthers`).
- `arch/x86_64/boot/boot.asm:115` says 2 GiB, but the second page of its directory is linked
  nowhere, so 1 GiB is mapped (`Translation.BootMapsOneGiB`).
- `pmm_init` rounds the start of an available entry down, so an entry that does not start on a page
  boundary offers a page that begins before it (`Pmm.OffersInside` has the exact condition,
  `Pmm.UnalignedEntry` an instance).
- SIGSTOP blocks a process whatever its state, so stop and continue make a zombie ready
  (`SchedCalls.StoppedZombieRuns`; otherwise `SchedCalls.ZombieNeverRuns`).
- `pmm_mark_free` leaves the hint alone, so afterwards `pmm_alloc_page` may miss the lowest free
  page (`FrameBits.NextFitIsLowest` has the exact condition, `Pmm.LooseHintMissesLowest` an
  instance).
- `tmpfs_mkdir` does not look for an existing child: a second `mkdir` of a path adds a child
  that no path reaches, and a component longer than 255 characters is cut and never found
  (`FileTree.MkDirThenResolve`).

## Model

| member | source | states |
|---|---|---|
| Words.AndPow2TestsBit | kernel/mm/pmm.c:32-34 | masking with a shifted one is nonzero exactly when that bit is set |
| Words.OrPow2SetsBit | kernel/mm/pmm.c:24-26 | or-ing a shifted one sets that bit and keeps every other |
| Words.AndNotPow2ClearsBit | kernel/mm/pmm.c:28-30 | and-ing the complement clears that bit and keeps every other bit of the word |
| Words.SameBits | kernel/mm/pmm.c:24-34 | words are determined by their bits |
| FrameBits.FreeCountUpdate | kernel/mm/pmm.c:24-34 | changing one flag changes the number of zero bits by exactly that flag |
| FrameBits.FreeCountPositive | kernel/mm/pmm.c:102-121 | the count of zero bits is positive if and only if some page is free |
| FrameBits.RunCount | kernel/mm/pmm.c:132-138 | taking a run of n free pages lowers the count of zero bits by n |
| FrameBits.NextFitIsLowest | kernel/mm/pmm.c:102-121 | the hinted search finds the lowest free page if and only if it wrapped around or the hint was tight; after a wrap-around everything below the found page is used |
| Pmm.LooseHintMissesLowest | kernel/mm/pmm.c:172-181 | an instance over all managed pages where, after `pmm_mark_free`, the hinted search and the general scan disagree |
| Pmm.ReservedBytes | kernel/mm/pmm.c:84-93 | what the boot code reserves is the first MiB and 3 MiB from 16 MiB on |
| Pmm.OffersInside | kernel/mm/pmm.c:62-73 | an available entry offers only pages inside it if and only if it starts on a page boundary or offers none |
| Pmm.AlignedOffers | kernel/mm/pmm.c:62-73 | on a page boundary it offers exactly the managed pages inside it |
| Pmm.UnalignedEntry | kernel/mm/pmm.c:62-73 | an instance: an entry from byte 0x1800 on offers page 1, half of which lies before it |
| Pmm.ClaimedIsOffered | kernel/mm/pmm.c:67-77 | an available entry adds to the total exactly the pages it offers, any other all its pages |
| FrameBits.UsedBelowFilled | kernel/mm/pmm.c:161-181 | marking used keeps a tight hint tight; marking free keeps it tight if and only if nothing below it is released |
| Pmm.DisjointExtends | kernel/mm/pmm.c:62-81 | one more memory-map entry keeps the map page-disjoint exactly when it offers no page twice |
| Pmm.MatchesExtends | kernel/mm/pmm.c:62-81 | what one entry does to "used exactly if no entry offers it", and when the map stays disjoint |
| Pmm.PhysicalMemory.constructor | kernel/mm/pmm.c:38-98 | after init exactly the pages that are not reserved and are offered are free, and the counter equals their number if and only if the entries are page-disjoint |
| Pmm.PhysicalMemory.ReadMap | kernel/mm/pmm.c:54-82 | the memory-map loop |
| Pmm.PhysicalMemory.ClearEntry | kernel/mm/pmm.c:67-73 | one available entry frees its managed pages; the counter drifts exactly when one of them was already free |
| Pmm.PhysicalMemory.ReserveLowMemory | kernel/mm/pmm.c:84-90 | the low 256 pages become used and the counter follows |
| Pmm.PhysicalMemory.BitmapSet | kernel/mm/pmm.c:24-26 | the word array shows exactly the flags with that page used |
| Pmm.PhysicalMemory.BitmapClear | kernel/mm/pmm.c:28-30 | the word array shows exactly the flags with that page free |
| Pmm.PhysicalMemory.BitmapTest | kernel/mm/pmm.c:32-34 | reads the flag of the page |
| Pmm.PhysicalMemory.AllocPage | kernel/mm/pmm.c:102-121 | returns the first free page at or above the hint, else the first below it; panics if and only if no page is free; says exactly when the new hint is tight |
| Pmm.PhysicalMemory.AllocPages | kernel/mm/pmm.c:123-145 | takes a run of count free pages, the lowest-starting one when count is above 1 or the hint is tight; panics if and only if there is no such run; counter lowered by count |
| Pmm.PhysicalMemory.ScanForRun | kernel/mm/pmm.c:127-144 | the general scan finds the lowest run, and fails only when none exists |
| Pmm.PhysicalMemory.FreePage | kernel/mm/pmm.c:147-154 | frees one page, ignores out-of-range and double frees, lowers the hint, keeps a tight hint tight |
| Pmm.PhysicalMemory.FreePages | kernel/mm/pmm.c:156-159 | frees exactly the run; counter and hint follow |
| Pmm.PhysicalMemory.MarkUsed | kernel/mm/pmm.c:161-170 | marks the rounded-up range used; the "counter above zero" guard never loses a page; hint stays tight |
| Pmm.PhysicalMemory.MarkFree | kernel/mm/pmm.c:172-181 | frees the rounded-down range; the hint stays tight if and only if no page below it was in the range |
| Ownership.TakeAt | kernel/mm/pmm.c:123-145 | a fresh run put in an empty place is disjoint from everything held and from the reserved pages |
| Ownership.GiveBackAt | kernel/mm/pmm.c:156-159 | emptying a place frees its pages and nobody else's |
| Ownership.TakeKeepsAccounts | kernel/mm/pmm.c:123-145 | a fresh run belongs to no live region and to no reserved page |
| Ownership.ReleaseKeepsAccounts | kernel/mm/pmm.c:156-159 | releasing a live region frees its pages and nobody else's |
| Callers.AnswerKeepsSeparate | kernel/mm/pmm.c:102-159 | one right answer keeps all regions, shared memory included, pairwise disjoint and off the reserved pages |
| Callers.AnswerMovesPages | kernel/mm/pmm.c:102-159 | one right answer changes exactly these pages: an allocation uses what it returns, a release frees the whole region given back, likewise `shm_create` and `shm_destroy` |
| Callers.TakeThenGiveBack | kernel/mm/pmm.c:123-159 | taking pages and giving them back restores what everybody holds |
| Callers.EveryRunIsSeparate | kernel/mm/pmm.c:102-159 | over any run of rightly answered requests all live regions, those of callers and those of shared memory, are pairwise disjoint, and no reserved page is handed out |
| Callers.BootIsSeparate | kernel/mm/pmm.c:84-93 | before anybody holds anything the used pages are exactly the reserved ones |
| Callers.Serve | kernel/mm/pmm.c:102-159 | over any run of allocations, releases of held regions, `shm_create` and `shm_destroy` every request is answered by pages nobody holds (lowest run for more than one page), refused exactly when the segment table or size demands it, and a panic comes only when there is no run; what is held afterwards is what the answers say; counter drift and hint tightness are kept |
| Paging.IndexMacros | arch/x86_64/mm/paging.h:25-29 | the four index macros are the four base-512 digits of the 48-bit page number, for every 64-bit address |
| Paging.HugeOffset | kernel/mm/vmm.c:80-81 | the 2 MiB offset is the last digit and the page offset together |
| Paging.PteAddrValue | arch/x86_64/mm/paging.h:38 | `PTE_ADDR` keeps exactly bits 12 to 51 |
| Paging.EntryParts | arch/x86_64/mm/paging.h:38-39 | `PTE_ADDR` and `PTE_FLAGS` partition the entry |
| Paging.Packing | kernel/mm/vmm.c:39 | `phys or flags` gives back address, presence and the huge bit for every frame address below 2^52 and flags clear of the address bits |
| Paging.RootFrameValue | kernel/mm/vmm.c:30-33 | the frame that CR3 names |
| PageTables.EmptyRootIsTree | kernel/mm/vmm.c:104-109 | a zeroed root is a tree by itself and translates nothing, whatever the rest of memory holds |
| PageTables.PathInTree | kernel/mm/vmm.c:12-39 | walks stay inside the tree and each step follows the recorded slot |
| PageTables.PathIsInjective | kernel/mm/vmm.c:24-39 | pages that reach the same table agree on all digits above it |
| PageTables.NoTableNoMapping | kernel/mm/vmm.c:65-87 | a missing table on the path means no translation |
| Translation.TranslateIsWalk | kernel/mm/vmm.c:65-87 | the abstract translation is the 4-level walk in plain arithmetic: address bits pick the entries, bit 0 is presence, bit 7 of a directory entry a 2 MiB page, bits 12 to 51 the base |
| Translation.HugeTranslation | kernel/mm/vmm.c:80-81 | inside a 2 MiB page an address translates to the base of the entry plus the address modulo 2 MiB |
| Translation.HugeIsAffine | kernel/mm/vmm.c:80-81 | addresses of the same 2 MiB use the same entry and translate exactly as far apart as they are |
| Translation.BootMapsOneGiB | arch/x86_64/boot/boot.asm:96-123 | the boot tables map the first GiB onto itself and once more from 0xFFFFFFFF80000000 on, and the second GiB of either half not at all |
| PageTables.AttachKeepsTree | kernel/mm/vmm.c:12-20 | hanging a fresh zeroed frame into an empty slot keeps every table reached through one slot and at one level |
| PageTables.AttachKeepsMappings | kernel/mm/vmm.c:12-20 | creating a table changes no translation of any page |
| PageTables.AttachAddsOneLink | kernel/mm/vmm.c:12-20 | above the lowest level only the link to the new table appears, with exactly the given flags |
| PageTables.AttachExtendsPath | kernel/mm/vmm.c:12-20 | the path that lacked the table now reaches it |
| PageTables.AttachFillsGap | kernel/mm/vmm.c:12-20 | one table less is missing on the path |
| PageTables.LeafStoreKeepsTree | kernel/mm/vmm.c:39 | storing a leaf keeps the tree |
| PageTables.LeafStoreIsLocal | kernel/mm/vmm.c:39-62 | storing a leaf changes the entry of that page only |
| PageTables.ForeignFrameKeepsTree | kernel/mm/vmm.c:108-109 | clearing a frame outside the tree keeps the tree and all translations |
| Vmm.Mmu.GetOrCreateTable | kernel/mm/vmm.c:12-20 | returns the child on the path, creating it from a page that was free and no table; changes no translation and no 4 KiB entry; the one entry that changes above the lowest level is the new table's address with the given flags; panics exactly when it is missing and no page is free |
| Vmm.Mmu.PagingMap | kernel/mm/vmm.c:24-41 | the page maps to phys with an entry of exactly the given flags, every other page keeps translation and entry, new intermediate tables are linked present and writable and nothing else above the lowest level changes, the tree invariant is kept, the pages spent are exactly the missing tables, and it panics if and only if too few are free |
| Vmm.NewLinkIsWritable | kernel/mm/vmm.c:35-37 | a new link is the address of the new table plus 3, the present and the writable bit |
| Vmm.Mmu.PagingUnmap | kernel/mm/vmm.c:43-63 | the page has no translation and a zero entry, every other page keeps translation and entry, no table entry changes |
| Vmm.Mmu.PagingVirtToPhys | kernel/mm/vmm.c:65-87 | computes the translation of any address under any root whose tables lie in memory, boot tables included, with 0 for "none": both the abstract one and the plain-arithmetic walk |
| Vmm.Mmu.TreeIsInMemory | kernel/mm/vmm.c:65-87 | under a root whose tables form a tree every address has its tables in memory |
| Vmm.Mmu.MapRange | kernel/mm/vmm.c:129-136 | the pages of the range map to consecutive frames with the given flags, all other pages keep translation and entry; it panics if and only if fewer pages are free than different tables are missing on the paths of the range, spends exactly those, and creates no other table |
| Ranges.MissingNext | kernel/mm/vmm.c:129-136 | what is missing on the next path is what the next page is the first of the range to need |
| Ranges.GrownNext | kernel/mm/vmm.c:129-136 | mapping one more page makes exist exactly the tables of the longer range |
| Ranges.MissingInParts | kernel/mm/vmm.c:146-155 | the tables missing for a range are those for its first part and, once that is mapped, those for the rest |
| PageTables.AttachGrowsTable | kernel/mm/vmm.c:12-20 | creating a table makes it exist on exactly the paths that share its place |
| PageTables.UntouchedTreeStands | kernel/mm/vmm.c:24-63 | a tree whose frames are untouched stands and translates as before |
| Vmm.Mmu.UnmapRange | kernel/mm/vmm.c:138-144 | the pages of the range have no translation, all other pages keep translation and entry |
| Vmm.RangeIsAffine | kernel/mm/vmm.c:129-136 | every byte address of a mapped range translates by adding one constant |
| Vmm.UnmapUndoesMap | kernel/mm/vmm.c:129-144 | mapping and unmapping a range that was not mapped restores the translation of every address |
| Vmm.HeapGrows | kernel/mm/vmm.c:146-155 | mapping a run of free frames at the end keeps the heap mapped one to one onto used frames that are no tables |
| Vmm.Mmu.VmmAllocPages | kernel/mm/vmm.c:146-155 | takes a run of free frames, maps it at heap_end and keeps the heap fully and injectively backed; it panics if and only if there is no run or the pages left do not cover the missing tables; pages spent are exactly run and tables |
| Vmm.Mmu.GrowHeap | kernel/mm/vmm.c:146-155 | over any run of such calls `[heap_start, heap_end)` stays fully and injectively backed, each call extends it by what it asked for, free pages go exactly into pages asked for and tables missing, and the run stops short only at a call that finds no run or runs out of pages |
| Vmm.Mmu.CreateAddressSpace | kernel/mm/vmm.c:104-117 | a new root is a free page, an empty tree, and leaves the active translation alone; panics exactly when no page is free |
| Vmm.Mmu.SwitchAddressSpace | kernel/mm/vmm.c:125-127 | switching to the root of an owned tree of used frames keeps the invariant, and the tree that is left stands, so that a switch back is possible; null does nothing |
| Vmm.Mmu.MapElsewhere | kernel/mm/vmm.c:24-127 | mapping a page in another space and switching back leaves every translation of the home space as it was, when the two share no table |
| HeapBlocks.PayloadsAreDisjoint | kernel/mm/kheap.c:42-54 | payloads of different blocks of a tiled list share no word |
| HeapBlocks.TotalIsExtent | kernel/mm/kheap.c:57-68 | sizes plus overheads add up to the extent of the region |
| HeapBlocks.CarveKeepsTiling | kernel/mm/kheap.c:109-127 | allocating, with or without a split, keeps the blocks tiled |
| HeapBlocks.CarveKeepsTotal | kernel/mm/kheap.c:109-127 | allocating neither loses nor gains a word |
| HeapBlocks.CarveKeepsLive | kernel/mm/kheap.c:109-127 | every other block is still in the list |
| HeapBlocks.GrownBlockIsFirstFit | kernel/mm/kheap.c:131-133 | when nothing fitted, the block that growth appends is the first that fits, so the retry does not grow again |
| HeapBlocks.GrowAlmostSeparates | kernel/mm/kheap.c:57-83 | growth may leave one pair of free neighbours: a free tail and the new block |
| HeapBlocks.CarveRestores | kernel/mm/kheap.c:107-133 | allocating the first fit after that leaves no free neighbours |
| HeapBlocks.MergeKeepsTiling | kernel/mm/kheap.c:156-163 | coalescing keeps the blocks tiled |
| HeapBlocks.MergeIsExact | kernel/mm/kheap.c:156-172 | coalescing covers exactly the two blocks if and only if they touch |
| HeapBlocks.MergeOverGap | kernel/mm/kheap.c:156-172 | an instance: two free one-page blocks with a page between them merge into a block that takes in the foreign page and loses the second |
| HeapBlocks.ReleasedKeepsTiling | kernel/mm/kheap.c:145-173 | freeing keeps the tiling and the total |
| HeapBlocks.ReleasedSeparates | kernel/mm/kheap.c:154-172 | freeing a live block leaves no two free neighbours |
| HeapBlocks.ReleasedKeepsLive | kernel/mm/kheap.c:145-173 | every other live block is still in the list |
| HeapLive.CarveAddsOne | kernel/mm/kheap.c:109-127 | allocating adds exactly the block handed out to the live blocks |
| HeapLive.CarveIsTight | kernel/mm/kheap.c:111-126 | with 88 bytes to spare the payload is exactly the request and a free block with all the rest follows, else it is the whole block |
| HeapLive.ReleasedFrees | kernel/mm/kheap.c:145-173 | freeing takes exactly that block from the live ones, and its words, header and footer included, are part of a free block afterwards |
| HeapLive.SpanFits | kernel/mm/kheap.c:107-110 | free words can be handed out again: a request that they hold fits |
| HeapWords.SpliceKeepsRep | kernel/mm/kheap.c:112-125 | rewriting a stretch of blocks in memory keeps headers, footers and links of the whole list consistent |
| HeapWords.SpliceKeepsPayload | kernel/mm/kheap.c:112-125 | and touches no payload outside the stretch |
| HeapWords.AppendKeepsRep | kernel/mm/kheap.c:70-81 | linking a block behind the last one extends the list in memory |
| HeapWords.CarveInMemory | kernel/mm/kheap.c:110-127 | the stores of an allocation are the abstract allocation and no live payload changes |
| HeapWords.FreeInMemory | kernel/mm/kheap.c:154 | the flag stores of a free are the abstract step and no other payload changes |
| HeapWords.MergeInMemory | kernel/mm/kheap.c:156-172 | one coalescing step in memory is the abstract merge and no live payload changes |
| HeapWords.PayloadStoreIsInvisible | kernel/mm/kheap.c:183 | stores into one payload disturb neither the list nor any other payload |
| HeapWords.MoveKeepsLive | kernel/mm/kheap.c:181-186 | allocate, copy and free keep every other live block |
| Heap.RequestArithmetic | kernel/mm/kheap.c:104-105 | rounding a request once or, on the retry, twice makes no difference |
| Heap.GrowthSuffices | kernel/mm/kheap.c:131-132 | the pages asked for after a failed search hold the request |
| Heap.ServedApart | kernel/mm/kheap.c:101-137 | what an allocation hands out holds the request, starts at a multiple of 8 and overlaps no part of a block that was live |
| Heap.FitsInBytes | kernel/mm/kheap.c:110 | a block fits if and only if it is free and 56 bytes larger than the request rounded up to 16 |
| Heap.CarveServes | kernel/mm/kheap.c:101-127 | what an allocation hands out is a new live block at the returned address that holds the request and is less than 104 bytes larger, and no other block becomes live or ceases to be; with 88 bytes to spare it is exactly the rounded request and all the rest is a free block behind it |
| Heap.GrowthIsTight | kernel/mm/kheap.c:131 | growth asks for the rounded request, 56 bytes and one page, rounded up to pages and not a page more |
| Heap.InitialIsTight | kernel/mm/kheap.c:93-94 | `kheap_init` asks for 16 pages, or for the size rounded up to pages when that is smaller |
| Heap.PayloadAlignment | kernel/mm/kheap.c:104-126 | a payload is 16-byte aligned if and only if its place in the list plus the number of odd lengths before it is odd |
| Heap.FirstPayloadInPage | kernel/mm/kheap.c:104-126 | an instance: the first payload of the heap is not aligned |
| HeapWords.SpliceInRegion | kernel/mm/kheap.c:109-172 | rewriting a stretch of the list changes no word outside the region of the list |
| HeapWords.CopyInMemory | kernel/mm/kheap.c:183 | copying one payload into another disturbs neither the list nor a third payload nor any word outside the region |
| Heap.KernelHeap.WriteBlock | kernel/mm/kheap.c:46-54 | header and footer agree afterwards; five words change |
| Heap.KernelHeap.SplitBlock | kernel/mm/kheap.c:112-122 | the stores of a split replace one block by two in list and memory |
| Heap.KernelHeap.Coalesce | kernel/mm/kheap.c:156-172 | the stores of one coalescing step replace two blocks by one |
| Heap.KernelHeap.HeapExpand | kernel/mm/kheap.c:57-83 | panics exactly when there is no run of pages, refuses exactly when the budget would be passed (keeping the pages), else appends one free block at the end of the region |
| Heap.KernelHeap.KheapInit | kernel/mm/kheap.c:87-99 | one free block over the initial pages; panics exactly when pages or budget are lacking |
| Heap.KernelHeap.FindFit | kernel/mm/kheap.c:107-129 | following the links finds the first block that fits, or none does |
| Heap.KernelHeap.Kmalloc | kernel/mm/kheap.c:101-137 | carves the first fit, growing at most once; the address is the payload of a block that was not live, holds the request and wastes less than 104 bytes, and no other block becomes live or ceases to be; NULL for a nonzero size if and only if nothing fitted and the budget refused; tiling, budget accounting and no-free-neighbours are kept, every live payload is unchanged and no word outside the region changes |
| Heap.KernelHeap.GrowAndRetry | kernel/mm/kheap.c:131-136 | the retry carves exactly the appended block and never grows again |
| Heap.KernelHeap.Kfree | kernel/mm/kheap.c:145-173 | frees the live block at that address: exactly that block stops being live, its words become part of a free block, so that every request it could hold fits, and nothing live is left at the address; does nothing for NULL, a freed block or any word without the used magic; every other live payload is unchanged; no word outside the region changes |
| Heap.KernelHeap.FreeTwice | kernel/mm/kheap.c:149-152 | freeing the same address a second time changes nothing |
| Heap.KernelHeap.Krealloc | kernel/mm/kheap.c:175-187 | zero frees, a small size returns the block, a larger one moves it with all its bytes: then exactly the new block is live instead of the old one, whose words are free, and less than 104 bytes are wasted; NULL for a nonzero size leaves list and memory as they were; other live payloads are unchanged; no word outside the region changes |
| Heap.KernelHeap.MoveBlock | kernel/mm/kheap.c:181-186 | the moving tail of `krealloc`: allocates, copies and frees the old block |
| Sched.PickNextIsBest | kernel/proc/sched.c:49-66 | `pick_next` is the earliest ready process of least vruntime, and idle when none is ready |
| Sched.StepKeeps | kernel/proc/sched.c:23-139 | every scheduler operation keeps the accounts |
| Sched.ReachableIsAccounted | kernel/proc/sched.c:11-139 | in every reachable state the runtime ticks add up to the tick, each vruntime is weighted runtime modulo 2^32, only the current process is marked running, and nobody is asleep |
| Sched.SleepIsUndone | kernel/proc/sched.c:123-130 | going to sleep is a yield that records the wake-up tick: the process comes out ready and keeps the CPU exactly when a plain yield would have kept it |
| Sched.ExitOnlyOthers | kernel/proc/process.c:104-111 | exiting leaves a zombie if and only if it was not the current process |
| SchedCalls.YieldPicks | kernel/proc/sched.c:108-119 | after a yield the earliest queued process of least vruntime among the ready ones and the one that yields is current, idle if there is none; the two states change and nothing else |
| SchedCalls.YieldPicksRunnable | kernel/proc/sched.c:108-119 | whoever runs after a yield is queued and was ready or current, or is idle |
| SchedCalls.AddQueues | kernel/proc/sched.c:23-35 | `sched_add` appends to the queue if and only if the process is ready, and changes nothing otherwise |
| SchedCalls.AddThenYield | kernel/proc/sched.c:23-119 | an added ready process runs next if and only if its vruntime is below that of everybody queued who is ready or current |
| SchedCalls.SpawnThenYield | kernel/proc/process.c:53-98 | a created process is ready, has its priority and no runtime; added, it runs next if and only if everybody queued who could has vruntime above 0 |
| SchedCalls.RemoveThenYield | kernel/proc/sched.c:37-45 | a removed process does not run next; the others keep their order |
| SchedCalls.WakeMakesReady | kernel/proc/sched.c:134-139 | `sched_wake` makes exactly sleeping and blocked processes ready |
| SchedCalls.WakeThenYield | kernel/proc/sched.c:108-139 | a blocked process does not run next; woken, it does if and only if nobody who could has less vruntime, or as much and an earlier place |
| SchedCalls.StopThenContinue | kernel/ipc/ipc.c:26-30 | SIGSTOP blocks any process, SIGCONT makes exactly a blocked one ready, so it undoes a stop |
| SchedCalls.StopThenYield | kernel/ipc/ipc.c:26 | a process stopped by another does not run next |
| SchedCalls.TickCounts | kernel/proc/sched.c:70-87 | a tick adds 1 to the current process's ticks and 256 minus its priority to its vruntime modulo 2^32, and wakes exactly the queued sleepers whose time has come |
| SchedCalls.TickHandsOver | kernel/proc/sched.c:89-103 | only every tenth tick of a process ends its turn, and then the tick hands over as a yield would |
| SchedCalls.TickLeavesBlocked | kernel/proc/sched.c:89-103 | a process that is neither running nor ready loses the CPU at the end of its turn to the earliest ready one of least vruntime, and keeps its state |
| SchedCalls.ZombieNeverRuns | kernel/proc/process.c:104-111 | over any run in which nobody stops it, a process that exited while another was current stays a zombie and never runs again |
| SchedCalls.StoppedZombieRuns | kernel/ipc/ipc.c:26-30 | stop and continue make a zombie ready |
| Fairness.ChargeKeepsBound | kernel/proc/sched.c:75-77 | one charged tick keeps everybody within the allowance, because the current process would be within it even with its whole quantum used |
| Fairness.StepKeepsBound | kernel/proc/sched.c:70-119 | every tick or yield keeps the inductive invariant of the fairness bound |
| Fairness.BoundedUnfairness | kernel/proc/sched.c:49-119 | from any state with runnable queued processes, over any run of ticks and yields no queued process gets further ahead of another than the initial gap (with what was left of the quantum in progress) or one quantum of its own, whichever is larger |
| Fairness.DispatchToLeast | kernel/proc/sched.c:90-101 | every hand-over leaves a process current that nobody queued is behind |
| Fairness.YieldToLeast | kernel/proc/sched.c:108-119 | so does a yield, which ends in a state that fair runs start in |
| Fairness.AllowanceInQuantum | kernel/proc/sched.c:75-90 | after a hand-over, and while the current process is ahead by no more than its ticks in the quantum, the allowance is just the gap or one quantum |
| Fairness.FairShares | kernel/proc/sched.c:49-119 | from any such state the weighted CPU time one process gains exceeds another's by at most the part of its allowance that is not the initial gap |
| Fairness.ShareInTicks | kernel/proc/sched.c:49-119 | the same in ticks, for a process that starts at most `lag` ahead of the others |
| Fairness.NoStarvation | kernel/proc/sched.c:49-119 | from any such state the CPU time that a queued process gains grows with elapsed time, with an explicit bound in its weight, the number of queued processes and how far ahead it started |
| Fairness.SmallerNumberPaysMore | kernel/proc/sched.c:77 | a tick costs more virtual runtime if and only if the priority number is smaller |
| Fairness.LargerNumberIsFavoured | kernel/proc/sched.c:49-119 | over any run a process with the smaller or equal number that does not start behind gains at most one quantum more than the other |
| Fairness.SmallerNumberIsSlower | kernel/proc/sched.c:49-119 | an instance: with priorities 0 and 255 the former has run 1 tick when the latter has run 2 |
| Scheduler.RunQueue.constructor | kernel/proc/sched.c:11-19 | the boot state of the transition system |
| Scheduler.RunQueue.Add | kernel/proc/sched.c:23-35 | refines the abstract insertion; links stay mutually inverse and the count right |
| Scheduler.RunQueue.Remove | kernel/proc/sched.c:37-45 | refines the abstract removal of a member at any position |
| Scheduler.RunQueue.PickNext | kernel/proc/sched.c:49-66 | following the links finds the abstract choice |
| Scheduler.RunQueue.SchedTick | kernel/proc/sched.c:70-104 | refines the abstract tick |
| Scheduler.RunQueue.SchedYield | kernel/proc/sched.c:108-119 | refines the abstract yield |
| Scheduler.RunQueue.SchedSleep | kernel/proc/sched.c:123-130 | refines the abstract sleep |
| Scheduler.RunQueue.SchedWake | kernel/proc/sched.c:134-139 | refines the abstract wake |
| Scheduler.RunQueue.ProcExit | kernel/proc/process.c:104-111 | refines the abstract exit |
| Scheduler.RunQueue.SignalStop | kernel/ipc/ipc.c:26 | refines the abstract stop |
| Scheduler.RunQueue.SignalContinue | kernel/ipc/ipc.c:27-30 | refines the abstract continue |
| Scheduler.RunQueue.ProcCreate | kernel/proc/process.c:53-98 | refines the abstract creation: a new ready process in the next slot, not yet queued |
| Paths.TokensOfJoin | kernel/fs/vfs.c:73-82 | appending a slash and a component appends one token |
| Paths.TokensOfPath | kernel/fs/vfs.c:174-186 | dirname and basename split a proper path into its leading tokens and its last one |
| Paths.TokensByPieces | kernel/fs/vfs.c:62-82 | one leading slash is skipped and every slash ends a component: doubled slashes make empty components, a trailing one none |
| Paths.PartsOfPath | kernel/fs/vfs.c:174-186 | dirname and basename cut any path at its last slash |
| Paths.PartsOfJoin | kernel/fs/vfs.c:174-186 | a text, a slash and a component are taken apart again |
| Paths.PathDirName | kernel/fs/vfs.c:174-180 | the buffer holds the directory part: ".", "/" or the text before the last slash |
| Paths.PathBaseName | kernel/fs/vfs.c:182-186 | the buffer holds the text behind the last slash |
| FileTree.ResolveSplits | kernel/fs/vfs.c:62-84 | resolving a proper path is resolving its dirname and looking its basename up there |
| PathCalls.FindIsFirst | fs/tmpfs/tmpfs.c:80-87 | the lookup finds the first child of the name |
| PathCalls.ResolveJoin | kernel/fs/vfs.c:62-84 | "/" is the root, and a path with one more component is looked up in the directory of the path before it |
| FileTree.MkDirKeepsTree | fs/tmpfs/tmpfs.c:89-105 | after mkdir every node still has one parent and there is no cycle |
| FileTree.MkDirKeepsWalks | fs/tmpfs/tmpfs.c:89-105 | every walk that succeeded before mkdir leads to the same node after it |
| FileTree.MkDirThenResolve | kernel/fs/vfs.c:134-143 | after mkdir of a proper path all old paths resolve as before, and the new path resolves to the new node if and only if it did not resolve before and its last component has at most 255 characters |
| FileTree.UnlinkKeepsTree | fs/tmpfs/tmpfs.c:107-122 | after unlink every node still has at most one parent and there is no cycle |
| FileTree.FindAfterUnlink | fs/tmpfs/tmpfs.c:107-122 | only the unlinked name in that directory changes, to the next child of the same name if there is one |
| FileTree.UnlinkThenResolve | kernel/fs/vfs.c:145-154 | after unlink the path resolves to that twin or not at all, its directory still resolves, and so does every path that does not use the entry |
| FileTree.MkDirThenUnlink | kernel/fs/vfs.c:134-154 | unlinking right after a first mkdir makes the path unresolvable and restores every old node |
| FileTree.EveryRunKeepsTree | kernel/fs/vfs.c:134-154 | over any run of mkdir and unlink calls on any paths there is one parent per node and no walk returns to its start |
| FileTree.MakingKeepsPaths | kernel/fs/vfs.c:134-143 | over any run of mkdir calls whatever resolved keeps resolving to the same node |
| PathCalls.MakeThenResolve | kernel/fs/vfs.c:134-143 | `vfs_mkdir` of any path on any tree returns 0 if and only if the directory part resolves, has fewer than 64 children and a node is granted, else ENOENT, ENOSPC or ENOMEM with the tree unchanged; on success that directory alone gains one empty last child named by the last component (255 characters of it), old paths resolve as before, and a proper path resolves to the new node unless it was taken or its last component is too long |
| PathCalls.RemoveSucceeds | kernel/fs/vfs.c:145-154 | `vfs_unlink` of any path succeeds if and only if its directory resolves and has such a child, for a proper path if and only if the path resolves; else ENOENT with the tree unchanged |
| PathCalls.RemoveThenResolve | kernel/fs/vfs.c:145-154 | on success that directory alone loses its first child of the name; a proper path then resolves to the next child of the name, or not at all, and paths that do not use the entry resolve as before |
| Tmpfs.FileSystem.FindDir | fs/tmpfs/tmpfs.c:80-87 | the loop over the children finds the abstract lookup's inode |
| Tmpfs.FileSystem.MkDir | fs/tmpfs/tmpfs.c:89-105 | ENOSPC at 64 children, ENOMEM without room, else the abstract mkdir, with all old inodes kept |
| Tmpfs.FileSystem.Unlink | fs/tmpfs/tmpfs.c:107-122 | ENOENT for an unknown name, else the abstract unlink |
| Tmpfs.FileSystem.Shift | fs/tmpfs/tmpfs.c:115-117 | the shift loop removes one position and keeps the order of the rest |
| Vfs.ResolvePath | kernel/fs/vfs.c:62-84 | cutting the buffer at its slashes in place finds the inode of the abstract walk |
| Vfs.CutText | kernel/fs/vfs.c:74-75 | a NUL stored at a slash splits the text into the token and what follows |
| Vfs.CutPiece | kernel/fs/vfs.c:74-81 | one round yields the next token and leaves the rest of the text behind the slash |
| Vfs.MkDir | kernel/fs/vfs.c:134-143 | is the abstract call on paths: same tree, same code, so that `PathCalls.MakeThenResolve` holds of it |
| Vfs.Unlink | kernel/fs/vfs.c:145-154 | is the abstract call on paths: same tree, same code, so that `PathCalls.RemoveSucceeds` and `PathCalls.RemoveThenResolve` hold of it |
| TmpfsFile.LastWriteWins | fs/tmpfs/tmpfs.c:38-52 | over any sequence of writes a position holds the byte of the last write that covers it |
| TmpfsFile.HolesAreUnwritten | fs/tmpfs/tmpfs.c:38-52 | a position that no write covers is unspecified |
| TmpfsFile.SizeIsLargestEnd | fs/tmpfs/tmpfs.c:50 | the size is the largest end of an accepted write |
| TmpfsFile.File.Read | fs/tmpfs/tmpfs.c:29-36 | returns the available count and the stored byte at every written position; the rest of the caller's buffer is unchanged |
| TmpfsFile.File.Write | fs/tmpfs/tmpfs.c:38-52 | is one write on values: stores the bytes, grows capacity to a multiple of 512, fails exactly when it must grow and `krealloc` refuses, and then changes nothing; size is at most capacity, capacity at most the block |
| TmpfsFile.AlignUpReaches | fs/tmpfs/tmpfs.c:43 | a file grows to the next multiple of 512 |
| TmpfsFile.WriteThenRead | fs/tmpfs/tmpfs.c:29-52 | what was written is read back whole, unless the heap had no room, and then the file is as it was |
| TmpfsFile.RunStoresAccepted | fs/tmpfs/tmpfs.c:38-52 | over any run of writes the file holds exactly what the accepted ones stored, and only a write that the heap has no room for returns ENOMEM |
| TmpfsFile.Drive | fs/tmpfs/tmpfs.c:38-52 | any run of writes on the buffer returns the codes and leaves the contents, capacity and block length of the run on values |
| Pipe.WaitingPop | kernel/ipc/ipc.c:56-58 | advancing the read position, also across 2^64, drops the oldest byte |
| Pipe.WaitingPush | kernel/ipc/ipc.c:70-72 | storing behind the last waiting byte appends it and overwrites none |
| Pipe.Pipe.Read | kernel/ipc/ipc.c:49-62 | delivers the oldest min(count, available) bytes in order, with the error codes for closed and empty pipes |
| Pipe.Pipe.Write | kernel/ipc/ipc.c:64-75 | accepts as many bytes as fit, in order, with the error codes |
| Pipe.RunIsFifo | kernel/ipc/ipc.c:49-75 | over any run the bytes that reads returned followed by those that wait are the bytes that writes accepted |
| Pipe.Perform | kernel/ipc/ipc.c:49-75 | one call on the ring returns and leaves what one call on the queue does |
| Pipe.Drive | kernel/ipc/ipc.c:49-75 | any run of calls on a new pipe returns what the queue of bytes returns, call by call |
| MessageQueues.WaitingPop | kernel/ipc/ipc.c:106-114 | receiving removes the oldest message and keeps head, count and tail in step |
| MessageQueues.WaitingPush | kernel/ipc/ipc.c:96-104 | sending appends and keeps head, count and tail in step |
| MessageQueues.Registry.Create | kernel/ipc/ipc.c:82-88 | a fresh id and an empty queue, or -1; other queues are untouched |
| MessageQueues.Registry.Destroy | kernel/ipc/ipc.c:90-94 | the id is destroyed, other queues are untouched |
| MessageQueues.Registry.Send | kernel/ipc/ipc.c:96-104 | appends to that queue only, EAGAIN when full, -1 for an id that is not open |
| MessageQueues.Registry.Recv | kernel/ipc/ipc.c:106-114 | takes the oldest message of that queue only, EAGAIN when empty, -1 for an id that is not open |
| MessageQueues.EachQueueIsFifo | kernel/ipc/ipc.c:82-114 | over any run, for every queue, messages received are a prefix of messages sent, and for an open queue the rest is what waits |
| MessageQueues.DestroyedForEver | kernel/ipc/ipc.c:90-114 | after a queue is destroyed every send to it and receive from it returns -1 and no create returns its id |
| MessageQueues.Perform | kernel/ipc/ipc.c:82-114 | one call on the tables returns and leaves what one call on the book of queues does |
| MessageQueues.Drive | kernel/ipc/ipc.c:82-114 | any run of calls returns what the book returns, call by call |
| SharedMemory.AddKeepsSound | kernel/ipc/ipc.c:121-135 | a new region is disjoint from all live ones |
| SharedMemory.DropKeepsSound | kernel/ipc/ipc.c:158-165 | dropping a region frees no page of another |
| SharedMemory.RoundedIsTight | kernel/ipc/ipc.c:123 | the size is rounded up to whole pages, and wraps to 0 within a page of 2^64 |
| SharedMemory.RefusedSizes | kernel/ipc/ipc.c:121-128 | refused sizes are 0 and everything above 1 MiB |
| SharedMemory.Segments.Create | kernel/ipc/ipc.c:121-135 | refuses a full table, a zero or too large size; otherwise records a run of pages nobody holds |
| SharedMemory.Segments.Destroy | kernel/ipc/ipc.c:158-165 | gives the pages of a live region back exactly once |
| SharedMemory.Segments.CreateThenDestroy | kernel/ipc/ipc.c:121-165 | create then destroy restores the bitmap and the free count |
| Keyboard.PressAndRelease | drivers/keyboard/keyboard.c:56-89 | press and release give at most one event, and only Caps Lock toggles lastingly |
| KeyHistory.HistoryDecides | drivers/keyboard/keyboard.c:52-74 | after any bytes Shift, Ctrl and Alt are down if and only if such a key was pressed without a prefix and not released since, Caps Lock is on after an odd number of presses, and a prefix is pending if and only if it came last |
| KeyHistory.EventMeans | drivers/keyboard/keyboard.c:66-89 | a byte makes an event if and only if it is a press and not of a plain modifier; the event carries the key, the modifiers held before it, and the layout's character, shifted if exactly one of Shift and Caps Lock is in force |
| KeyHistory.Layout | drivers/keyboard/keyboard.c:8-22 | the rows of the layout, plain and shifted |
| KeyHistory.RunDecodes | drivers/keyboard/keyboard.c:44-74 | in any interleaving with the reader the modifiers are those of the bytes alone |
| KeyHistory.InterruptAccepts | drivers/keyboard/keyboard.c:81-96 | in any interleaving an interrupt accepts exactly the event its byte calls for, unless 255 are waiting, and leaves the reader alone |
| Keyboard.PutAppends | drivers/keyboard/keyboard.c:91-96 | an event is appended, and lost if and only if 255 are queued; the slot at the head is never overwritten while events wait |
| Keyboard.DropRemovesOldest | drivers/keyboard/keyboard.c:112-117 | advancing the head removes the oldest event |
| Keyboard.EveryInterleavingIsSound | drivers/keyboard/keyboard.c:91-117 | with interrupts between any two statements of the reader, even inside the copy, delivered events are whole and a prefix of the accepted ones |
| KeyHistory.ReaderDelivers | drivers/keyboard/keyboard.c:112-117 | when an event waits, nine statements of the reader deliver one, whatever interrupts come in between |
| Keyboard.KeyboardDriver.IrqHandler | drivers/keyboard/keyboard.c:44-97 | refines decoding and buffering |
| Keyboard.KeyboardDriver.Poll | drivers/keyboard/keyboard.c:112-117 | delivers the oldest event, or reports an empty ring and changes nothing |

## Left out

- Vmm.Mmu.GetOrCreateTable: requires that no 2 MiB entry lies on the path; the code does not test for one and would take the large page for a table. Roots built by `vmm_create_address_space` have none.
- Vmm.Mmu.PagingMap: the same requirement.
- Vmm.Mmu.PagingUnmap: the same requirement.
- Vmm.Mmu.MapRange: the same requirement for its range; after a panic in the middle it does not say how much was mapped, since the kernel has stopped.
- Vmm.Mmu.UnmapRange: the same requirement for its range.
- The mapping methods of `Vmm.Mmu` work under a root whose tables form a tree, as those of created address spaces do; the boot root links its directory twice, and only translation is proved under it.
- Vmm.Mmu.MapElsewhere: requires that the two spaces share no table, which holds for roots that were created empty.
- Heap.KernelHeap.HeapExpand: requires that the pages the allocator hands out continue the region (`Continues`), because the code links blocks without comparing addresses.
- Heap.KernelHeap.Kmalloc: the same requirement when nothing fits.
- Heap.KernelHeap.GrowAndRetry: the same requirement.
- Heap.KernelHeap.Krealloc: the same requirement when a larger block must be allocated and nothing fits.
- Heap.KernelHeap.MoveBlock: the same requirement.
- Heap.KernelHeap.KheapInit: size 0 is outside its precondition; the code would then take no page, write a header at address 0 with a wrapped size, and its footer below address 0.
- Heap.KernelHeap.Kfree: an address that is no block start but whose header word happens to carry the used magic is outside its precondition; the code would corrupt the list there.
- Scheduler.RunQueue.ProcCreate: does not model the full process table or a failed `kcalloc`, nor the stack and address space it sets up.
- Scheduler.RunQueue.Add: requires a process that is not queued yet, because the code would cut the list otherwise.
- Scheduler.RunQueue.Remove: requires a member of the queue, because the code would empty head or tail otherwise.
- Fairness.BoundedUnfairness: assumes priorities of at most 255, no wrap of the 32-bit vruntime during the run, and a fixed set of runnable processes.
- Fairness.NoStarvation: the same assumptions.
- Paths.PathDirName: paths of 4095 characters or more are outside its precondition, since `strncpy` then leaves the buffer without a terminator.
- Paths.PathBaseName: the same precondition.
- Vfs.ResolvePath: the same precondition.
- Vfs.MkDir: the same precondition.
- Vfs.Unlink: the same precondition.
- FileTree.MkDirThenResolve: relative paths, doubled and trailing slashes are outside `Proper`; `Vfs.MkDir` itself covers them.
- TmpfsFile.File.Write: offsets are nonnegative and ends stay 512 below 2^64; the bytes of holes are unspecified, as they are in the heap block.
- Keyboard.KeyboardDriver.Poll: is the uninterrupted call; interrupts inside it are covered by the transition system of `EveryInterleavingIsSound`.
- Callers.Serve: callers release only regions they hold, by their place in the list of what they hold; releasing pages of somebody else is outside the model.
- One active root at a time: the `as` argument of the range calls is ignored by the code and by the model; tables are never reclaimed by it either.
- Heap memory is word-granular: `memcpy` and payloads are 8-byte words, and the free flag takes a whole word.
- 64-bit ticks, runtimes and page totals do not wrap.
- An inode freed by unlink is not reused in the model, and the subtree below it stays allocated, as in the code.
- The null current process, `kcalloc`, `kmalloc_aligned`, shared-memory attach and detach, signals other than stop and continue, the mount table, rename and canonicalization, TLB flushes, boot code, descriptor tables, ports, drawing and the shell: hardware, stubs or easy members.
