# Aurelion early boot, verified

A Dafny model of the early-boot memory and drawing code of the Aurelion kernel and its loaders, with
proofs about every run of it.

- **Page tables over the page allocator.** `Pmm` is the bitmap allocator in place, `Vmm` the page-table
  code in place, both over arrays; `Pages` and `PageTables` are the same operations as functions on
  values, to which the methods are tied. `Paging` defines the processor's walk (Intel SDM Volume 3A,
  section 4.5) beside the kernel's own. The shape invariant `PageTables.Tree` says that the reachable
  tables are pairwise distinct frames apart from the one PDPT that root slots 0 and 510 share.
  `PageRuns` lifts it to every interleaving of calls, `Window` is the framebuffer mapping,
  `BootTables`, `Stage1Paging` and `BootState` the tables around the load of CR3, `BootRuns` the runs from there.
  Memory is reached by physical address throughout (`PhysicalMemory`: what is not there reads as zero). The kernel
  does so by way of an identity map; `TableReach` says which frames its own tables keep within reach.
- **Kernel heap.** `Chain` is the block list as a value, `HeapTheory` what holds over every run,
  `HeapMemory` and `KernelHeap` the allocator over one array of words in which headers and payloads share
  the memory, `HeapTrace` whole histories of it, `Placement` where heap, bitmap and pages lie.
- **Framebuffer.** `Raster` says which byte belongs to which pixel and what it means that a shape has
  been painted; `Renderer` has the drawing loops, `Line` the Bresenham loop, `Color` the packed pixels,
  `RoundedBox` what clipping does to rounded boxes.
- **Boot hand-off.** `BootMap` converts the UEFI memory map and follows it into the page allocator,
  `FirmwareMap` starts from the bytes the firmware writes, `MultibootMap` collects the Multiboot one, `Elf` loads the segments.
- **Console and numbers.** `Console` is the scrolling text screen as a window on an endless page,
  `Digits` number printing.

`Bits` has 64-bit words and C's bitwise operators as arithmetic, `BootAbi` the structures of the boot ABI.

Integers are unbounded; where a width matters it is written out (`% WORD_LIMIT`, `% U32`, `Narrow`).

## Where the code differs from what is written about it

- `PTE_LARGE` is ignored by `vmm_get_next_level`. Under a 2 MiB leaf, `map_page` and `unmap_page`
  leave every translation alone and overwrite a word of the leaf's frame
  (`PageTables.StoreUnderLarge`, `PageTables.MapWorksIff`, `BootTables.MapInIdentityWindow`). When that frame is itself
  a page table, the word is one of its entries (`BootState.UnmapUnderLeafBreaksWindow`); from boot some run comes to that
  unless the leaves' frames are kept back (`BootRuns.TablesSparedIff`).
- Once CR3 is loaded `vmm_get_next_level` still uses physical addresses, so a table at 16 MiB or above is out of
  reach (`TableReach.HighIsLost`, `TableReach.ReachKeptIff`). What is said of map_page and unmap_page is about calls that
  reach their tables.
- The comment in kernel/src/kernel.c:138 gives the heap 4 MiB to itself; nothing keeps the page allocator out of it
  (`Placement.HeapIsSparedIff`, `Placement.PlainMapGivesOutHeap`), or the bitmap on large machines
  (`Placement.BitmapMeetsHeapIff`). Nor does the allocator reserve the kernel image (`Placement.FramesAreSparedIff`,
  `Placement.KernelImageIsGivenOut`). The 2 MiB leaves over the heap make calls on its pages store into it
  (`BootRuns.HeapSurvives`, `BootRuns.UnmapClearsHeapHeader`).
- Stage 1 is 32-bit code and cuts the 64-bit fields of a program header (`Elf.Stage1CoversIff`).
- The comment at kernel/src/x86_64/vmm.c:69-74 announces a mapping of 0xFFFFFFFF80000000 through a separate PDPT.
  That address decodes to root slot 511, which is empty, and slot 510 shares the PDPT of slot 0
  (`BootTables.HigherHalf`).
- `vmm_map_framebuffer` returns the window even when frames run out (`Window.FramebufferShowsIff`).
- `convert_memory_map` reads descriptors at offsets 0, 8 and 16. Section 7.2 of the UEFI specification
  puts Type at 0, PhysicalStart at 8, VirtualStart at 16 and NumberOfPages at 24. When the result is right all the
  same is `FirmwareMap.ConversionIsRightIff`, and which frames of any such map end up clear is
  `FirmwareMap.ClearOfFirmwareMap`; with VirtualStart at 0 there is no memory to allocate
  (`FirmwareMap.FirmwareMapGivesNoMemory`). The rows of `BootMap` are about the fields as the loader reads them.
- The walk of stage 1 along the Multiboot map need not end (`MultibootMap.NeverEndsIff`, `MultibootMap.CycleNeverEnds`).
- `pmm_mark_region` rounds a region's start down, so the first frame of an unaligned usable region is freed
  although part of it lies outside (`Pmm.CoveredIsInsideIff`).
- The free-page counter counts frame 0 and the bitmap's own frames when they are usable (`Pmm.CounterOffset`).
- `heap_free` takes the whole block off `heap_used`, `heap_alloc` adds only the rounded request
  (`HeapTheory.AvailableIsRightIff`, `HeapTheory.UsedUnderflows`), and a request within 15 of the top of
  `size_t` is granted a block too small for it (`HeapTheory.GrantIsLargeEnoughIff`).
- `fill_rounded_rect` clips its box before it rounds it (`RoundedBox.RoundedIsAskedIff`), and
  `fill_rect` paints nothing when an edge wraps (`Raster.RectIsExactIff`).

## Model

| member | source | states |
|---|---|---|
| Pages.FirstClear | kernel/src/x86_64/pmm.c:137-138 | the scan of alloc_page stops at a clear frame with every lower frame marked, or at the end |
| Pages.AllocTakesLowest | kernel/src/x86_64/pmm.c:135-146 | alloc_page fails exactly when every bit is set; otherwise it takes the lowest clear frame, moves no other bit and leaves one clear frame fewer |
| Pages.FreeUndoesAlloc | kernel/src/x86_64/pmm.c:135-155 | freeing the page just allocated restores bitmap and counter |
| Pages.FreeIsExact | kernel/src/x86_64/pmm.c:148-155 | free_page clears the bit of the frame the address lies in, aligned or not, counts it if it was set, and moves no other |
| Pages.HeldStaysMarked | kernel/src/x86_64/pmm.c:135-155 | over every run of allocations and frees, frames handed out and not freed since stay marked |
| Pages.NextPageIsNotHeld | kernel/src/x86_64/pmm.c:135-146 | after any run the frame handed out is the lowest clear one and is not held by anyone |
| Pages.ReservedStaysMarked | kernel/src/x86_64/pmm.c:91-99 | frames marked at the start (bitmap, frame 0) are never handed out by a run that does not free them, so NULL then means out of memory and nothing else |
| Pages.CounterTracksClear | kernel/src/x86_64/pmm.c:135-160 | the counter and the number of clear bits keep their distance over every run |
| Pages.RunStaysWithin | kernel/src/x86_64/pmm.c:135-155 | if callers free only what they hold, frames handed out come from the frames clear at the start |
| Pmm.BitOfByte | kernel/src/x86_64/pmm.c:15-19 | writing one bit of a bitmap byte moves none of the other seven |
| Pmm.WriteBit | kernel/src/x86_64/pmm.c:15-19 | writing one frame's bit changes that frame in the abstract bitmap and no other |
| Pmm.CounterOffset | kernel/src/x86_64/pmm.c:83-99 | over every run after pmm_init, the counter exceeds the clear frames by exactly the usable frames among frame 0 and the bitmap's own |
| Pmm.CoveredIsInsideIff | kernel/src/x86_64/pmm.c:23-26 | a frame marked with a region lies wholly inside it, except the first one of a region that does not start on a page boundary |
| Pmm.CoversIff | kernel/src/x86_64/pmm.c:21-33 | the frames marked with a region are those that end inside it behind its base |
| Pmm.BitmapIsReserved | kernel/src/x86_64/pmm.c:92-99 | byte by byte: the page of every byte of the bitmap, from 3 MiB on, is reserved, and every reserved page but the first holds one |
| Pmm.BitmapReachesHighestEnd | kernel/src/x86_64/pmm.c:45-54 | the bitmap has a bit for every whole frame below the highest end of a region |
| Pmm.PageAllocator.MarkRegion | kernel/src/x86_64/pmm.c:21-33 | exactly the frames from the one holding the base to the last whole one get the value asked for |
| Pmm.PageAllocator.Init | kernel/src/x86_64/pmm.c:35-99 | a frame is clear exactly when a usable region covers it and it is neither frame 0 nor a bitmap frame; the counter is the number of usable frames; an empty map changes nothing |
| Pmm.PageAllocator.MarkUsable | kernel/src/x86_64/pmm.c:76-81 | from an all-set bitmap, exactly the usable frames become clear |
| Pmm.PageAllocator.CountFree | kernel/src/x86_64/pmm.c:83-89 | the counter is the number of clear frames |
| Pmm.PageAllocator.AllocPage | kernel/src/x86_64/pmm.c:135-146 | the in-place scan is Pages.Alloc on the bitmap |
| Pmm.PageAllocator.FreePage | kernel/src/x86_64/pmm.c:148-155 | the in-place free is Pages.Free on the bitmap: only a marked frame in range changes anything |
| Paging.EntryBits | kernel/src/x86_64/vmm.c:10-15 | address, present and large bits of an entry are what the source's masks select |
| Paging.MakeEntryBits | kernel/src/x86_64/vmm.c:107 | the entry map_page stores: masked address, low twelve flags, present |
| Paging.PageBits | kernel/src/x86_64/vmm.c:95-98 | the four shift-and-mask indices are the page's coordinates |
| PageTables.WalkIsLookup | kernel/src/x86_64/vmm.c:129-145 | on a tree of tables the processor's walk is a lookup in the tree, and the kernel's own walk agrees with it on every page not under a 2 MiB leaf |
| PageTables.GrownIsTree | kernel/src/x86_64/vmm.c:28-35 | hanging a zeroed fresh frame from an absent entry keeps the tables a tree of distinct, marked frames |
| PageTables.GrownKeepsLookup | kernel/src/x86_64/vmm.c:28-35 | and changes no translation |
| PageTables.StepIsSound | kernel/src/x86_64/vmm.c:23-38 | get_next_level with allocation keeps the shape invariant and every translation, and names the table hung at the slot |
| PageTables.DescentIsSound | kernel/src/x86_64/vmm.c:100-105 | the three steps of map_page reach the page's table or run out of frames, and move no translation either way |
| PageTables.MapIsExact | kernel/src/x86_64/vmm.c:93-108 | map_page: the page and its alias through root slots 0 and 510 translate to the frame asked for, writable as asked, and no other page moves; if frames run out nothing moves; data frames are not written; the shape invariant holds after |
| PageTables.UnmapIsExact | kernel/src/x86_64/vmm.c:110-127 | unmap_page takes away the translation of the page and its alias and of no other |
| PageTables.UnmapUndoesMap | kernel/src/x86_64/vmm.c:93-127 | unmapping a page just mapped restores every translation |
| PageTables.MapStoresEntry | kernel/src/x86_64/vmm.c:107 | the last-level entry on the processor's way to the page is then the word of the source's expression: masked address, low twelve flags, bit 0 |
| PageTables.UnmapStoresZero | kernel/src/x86_64/vmm.c:110-127 | after unmap_page it is 0 |
| PageTables.NewTableWords | kernel/src/x86_64/vmm.c:31-34 | a new table holds 512 zeros and hangs from its address with bits 0 and 1 |
| PageTables.NullTableStops | kernel/src/x86_64/vmm.c:100-105 | an entry that leads to frame 0 reads as no table: map_page and unmap_page change nothing and get_physical finds nothing |
| PageTables.DescentFinds | kernel/src/x86_64/vmm.c:117-122 | the descent without allocation finds a page's table exactly when it exists |
| PageTables.DescentCost | kernel/src/x86_64/vmm.c:23-38 | a descent succeeds exactly when the clear frames suffice for the tables missing, and takes exactly those |
| PageTables.LargeFrameIsLeaf | kernel/src/x86_64/vmm.c:25-27 | under a 2 MiB leaf the kernel's walk ends in the mapped data and reads a word of it as an entry, where the processor maps the page |
| PageTables.StoreUnderLarge | kernel/src/x86_64/vmm.c:25-27 | there, map_page and unmap_page overwrite one word of the leaf's frame and nothing else; unless that frame is a table, every translation, every leaf and the shape invariant stay |
| PageTables.LiveTables | kernel/src/x86_64/vmm.c:25-27 | the frames the processor's walks take for tables are exactly the frames of the tree |
| PageTables.MapWorksIff | kernel/src/x86_64/vmm.c:93-127 | with its tables within reach: map_page has its effect if and only if there is a clear frame for every table missing, or, under a 2 MiB leaf, the leaf already maps the page as asked; unmap_page if and only if no 2 MiB leaf covers the page |
| PageRuns.StepKeeps | kernel/src/x86_64/vmm.c:93-127 | one map, unmap, page allocation or free keeps the shape invariant, moves the page it is called on and no other (none under a 2 MiB leaf), and writes to no frame but tables and the frame of a leaf on its path; new tables come from clear frames |
| PageRuns.RunKeepsTables | kernel/src/x86_64/vmm.c:93-127 | over every interleaving, calls under 2 MiB leaves included, the tables stay distinct marked frames no client holds, the leaves stay as they are, and every page translates to what the last call that got through on it says |
| PageRuns.HeldFramesAreNotWritten | kernel/src/x86_64/vmm.c:28-35 | a frame a client holds throughout a run is never written by the kernel, unless a call is on a page under the 2 MiB leaf that maps it |
| PageRuns.TakenPageIsFresh | kernel/src/x86_64/pmm.c:135-146 | no run hands a client a live table or a frame someone holds |
| PageRuns.KeptBackIsNotWritten | kernel/src/x86_64/vmm.c:28-35 | a frame that is no table and that the bitmap does not offer never becomes a table over a run, is never handed out, and is never written unless a call is on a page under the 2 MiB leaf that maps it |
| PageRuns.ReservedLeavesAllow | kernel/src/x86_64/vmm.c:64-67 | if the frames of all 2 MiB leaves are so kept back, no call of any run, on whatever page, stores into a table |
| BootRuns.BootLeafFrame | kernel/src/x86_64/vmm.c:64-67 | the 2 MiB leaves of the boot tables: seven, seen through root slots 0 and 510, and no other |
| BootRuns.CanBecomeTable | kernel/src/x86_64/vmm.c:28-35 | from boot, every frame that is clear, or held and may be freed, becomes a page table in some run |
| BootRuns.TablesSparedIff | kernel/src/x86_64/vmm.c:25-27 | from boot, no run whose clients free only what they hold stores into a page table through a 2 MiB leaf if and only if the seven frames from 2 to 14 MiB in steps of 2 MiB are no tables, not held and not clear |
| BootRuns.HeapSurvives | kernel/src/kernel.c:138-141 | from boot, every run without calls on pages from 4 to 8 MiB leaves every word of a heap whose frames the allocator cannot take |
| BootRuns.UnmapClearsHeapHeader | kernel/src/x86_64/vmm.c:110-127 | unmapping the page at 4 MiB stores 0 into the heap's first word |
| BootState.UnmapUnderLeafBreaksWindow | kernel/src/x86_64/vmm.c:25-27 | the other case: with the frames below 2 MiB taken, mapping the window's first page and then unmapping the page at 2 MiB takes away the window's page |
| TableReach.ReachableIff | kernel/src/x86_64/vmm.c:24-38 | after any run a frame is within the kernel's reach at its physical address if and only if that address is canonical and the last call that got through on its page maps it there, writable |
| TableReach.FramesReachableIff | kernel/src/x86_64/vmm.c:57-67 | from boot, over every run that leaves the lower half and slot 510 alone, the frames within reach are exactly those below 16 MiB |
| TableReach.HighIsLost | kernel/src/x86_64/vmm.c:28-35 | from boot, a frame at 16 MiB or above that is clear or held becomes a table that the kernel cannot reach, in some such run |
| TableReach.ReachKeptIff | kernel/src/x86_64/vmm.c:28-35 | every such run keeps all tables and the frames that become tables within reach if and only if no frame at 16 MiB or above is a boot table, held or clear at the start |
| TableReach.LoaderReach | boot/stage1/multiboot.c:171-183 | stage 1's tables reach exactly the frames below 1 GiB |
| TableReach.EarlyReachKeptIff | kernel/src/x86_64/vmm.c:83-85 | before the load of CR3, while nothing is stored into stage 1's own tables, every run keeps the kernel's tables within reach if and only if no frame at 1 GiB or above is a boot table, held or clear |
| BootTables.BootTreeIsTree | kernel/src/x86_64/vmm.c:57-75 | the boot tables satisfy the shape invariant |
| BootTables.KernelWords | kernel/src/x86_64/vmm.c:57-75 | the boot tables word by word |
| BootTables.LoaderWords | boot/stage1/multiboot.c:173-182 | stage 1's tables word by word |
| BootTables.KernelIdentity | kernel/src/x86_64/vmm.c:57-67 | the kernel's tables are the writable identity below 16 MiB, map nothing else in root slot 0, and use 2 MiB leaves exactly from 2 to 16 MiB |
| BootTables.LoaderIdentity | boot/stage1/multiboot.c:171-183 | stage 1's tables are the identity on the first GiB and map nothing else in root slot 0 |
| Stage1Paging.SetupPaging | boot/stage1/multiboot.c:171-183 | in place: the three arrays hold stage 1's tables and no other frame is written |
| BootTables.SwitchKeepsLowMemory | kernel/src/x86_64/vmm.c:147-154 | loading CR3 moves no address below 16 MiB |
| BootTables.HigherHalf | kernel/src/x86_64/vmm.c:69-75 | VMM_HIGHER_HALF is not mapped; root slot 510 shows the first 16 MiB |
| BootTables.MapInIdentityWindow | kernel/src/x86_64/vmm.c:61-67 | right after boot, mapping any page from 2 to 16 MiB leaves it where it was and overwrites memory in its 2 MiB block |
| Window.RangeIsSound | kernel/src/x86_64/vmm.c:179-182 | whatever frames there are, the mapping loop keeps the shape invariant and every page outside its window |
| Window.RangeIsMapped | kernel/src/x86_64/vmm.c:179-182 | with enough frames every page of the range is mapped and exactly the ceilings of n/512, n/512^2 and n/512^3 frames are taken |
| Window.RangeFallsShort | kernel/src/x86_64/vmm.c:179-182 | with fewer, some page of the range is left without translation |
| Window.FramebufferShowsIff | kernel/src/x86_64/vmm.c:156-185 | every byte of an accepted framebuffer shows at the returned window if and only if the clear frames cover the cost of its tables; the window is returned either way |
| Window.NullIff | kernel/src/x86_64/vmm.c:164-176 | NULL is returned exactly for a descriptor with a field of 0, and then nothing is mapped |
| Window.FramebufferIsMapped | kernel/src/x86_64/vmm.c:156-185 | every byte k of an accepted framebuffer shows, writable, at the returned address + k, without wrapping, as address + k in 52 bits |
| Window.FramebufferFallsShort | kernel/src/x86_64/vmm.c:184 | with too few frames the call still returns the window although some byte of it has no translation |
| Window.PageOfWindow | kernel/include/aurelian/vmm.h:10 | the window stays within root slots 288 to 351 and canonical addresses |
| BootState.BootAddressSpace | kernel/src/x86_64/vmm.c:40-91 | after vmm_init low memory is the identity and every framebuffer byte shows in the window |
| Vmm.Manager.GetNextLevel | kernel/src/x86_64/vmm.c:23-38 | in place: zeroing a new table and linking it is PageTables.NextLevel on memory and bitmap |
| Vmm.Manager.BuildTables | kernel/src/x86_64/vmm.c:43-75 | the static arrays hold the boot tables and no other frame is written |
| Vmm.Manager.Init | kernel/src/x86_64/vmm.c:40-84 | the boot tables, then the framebuffer mapping on them, for every descriptor; the shape invariant holds after if the static frames are marked (exactly when they are: Placement.StaticsAreOwnedIff) |
| Vmm.Manager.MapDisplay | kernel/src/x86_64/vmm.c:156-185 | for every descriptor: refused ones change nothing and give NULL, all others are mapped page by page; the shape invariant is kept whenever the bytes fit the window |
| Vmm.AcceptedKeepsShape | kernel/src/framebuffer.c:304-346 | the bytes of every descriptor the drawing code accepts fit it |
| Vmm.Manager.MapPage | kernel/src/x86_64/vmm.c:93-108 | in place, in any memory, is PageTables.Map; it keeps the shape invariant unless a 2 MiB leaf leads it into a table |
| Vmm.Manager.UnmapPage | kernel/src/x86_64/vmm.c:110-127 | in place, in any memory, is PageTables.Unmap; it keeps the shape invariant unless a 2 MiB leaf leads it into a table |
| Vmm.Manager.GetPhysical | kernel/src/x86_64/vmm.c:129-145 | the kernel's walk, with 0 both for no mapping and for frame 0 |
| Chain.AlignUpBits | kernel/src/x86_64/heap.c:23-26 | the rounding expression as arithmetic, wrapping at 2^64 |
| Chain.AlignUpRounds | kernel/src/x86_64/heap.c:23-26 | requests are rounded up by less than 16, except the last 15 values of size_t, which become 0 |
| Chain.CoalesceMerges | kernel/src/x86_64/heap.c:114-123 | after the sweep no two adjacent blocks are free |
| HeapTheory.CoalesceKeeps | kernel/src/x86_64/heap.c:114-123 | the sweep moves no live block and loses no byte |
| HeapTheory.LiveAreDisjoint | kernel/src/x86_64/heap.c:9-13 | live blocks with their headers lie in the heap, in order, without overlap, payloads 8-byte aligned |
| HeapTheory.TakeAddsOne | kernel/src/x86_64/heap.c:81-95 | an allocation adds exactly one live block, at the block found, and keeps the heap whole |
| HeapTheory.FreeRemovesOne | kernel/src/x86_64/heap.c:104-124 | a free removes exactly that live block and leaves a merged heap of the same size |
| HeapTheory.FreeUndoesAlloc | kernel/src/x86_64/heap.c:72-124 | freeing what was just allocated gives back the very same blocks |
| HeapTheory.FirstFitIsComplete | kernel/src/x86_64/heap.c:74-101 | alloc(0) gives NULL and changes nothing; else alloc fails exactly when no gap between live blocks holds a header and the rounded request, and otherwise takes the lowest such gap |
| HeapTheory.GrantedIs | kernel/src/x86_64/heap.c:81-95 | the blocks after a grant: the whole block found when it is smaller than the request and 40 bytes, else the request and a free rest |
| HeapTheory.BlocksStayUsable | kernel/src/x86_64/heap.c:83 | over every run of a heap of at least 40 bytes, requests that round to 0 apart, no block has fewer than 16 bytes |
| HeapTheory.RunKeepsSound | kernel/src/x86_64/heap.c:72-124 | over every run the blocks tile the heap with no two free neighbours, and with nothing live it is the one block it started as |
| HeapTheory.RunAccounts | kernel/src/x86_64/heap.c:94-112 | heap_used is the live bytes less the slack of all grants ever made, modulo 2^64 |
| HeapTheory.StepAccounts | kernel/src/x86_64/heap.c:94-112 | one call; the slack of a grant is below 40 bytes |
| HeapTheory.AvailableIsRightIff | kernel/src/x86_64/heap.c:126-129 | heap_available reports the bytes not handed out if and only if the slack granted so far is 0 modulo 2^64 |
| HeapTheory.UsedUnderflows | kernel/src/x86_64/heap.c:112 | on the kernel's 4 MiB heap one allocation and its free leave heap_available at 0 with everything free |
| HeapTheory.GrantIsLargeEnoughIff | kernel/src/x86_64/heap.c:76-84 | a grant holds the bytes asked for if and only if rounding did not wrap |
| HeapTheory.LargestRequestGetsNothing | kernel/src/x86_64/heap.c:23-26 | the kernel's empty heap grants SIZE_MAX bytes as a block of none |
| HeapMemory.SplitKeeps | kernel/src/x86_64/heap.c:83-91 | the five header writes of a split represent the two blocks and stay inside the block split |
| HeapMemory.JoinKeeps | kernel/src/x86_64/heap.c:117-119 | the two writes of a join represent the joined block and stay inside it |
| HeapMemory.PayloadStoreKeeps | kernel/src/x86_64/heap.c:95 | a client's store into its payload changes no header and no other block |
| KernelHeap.Allocator.constructor | kernel/src/x86_64/heap.c:28-37 | a region of any size from 24 bytes becomes one free block of its size less the header, with its three header words |
| KernelHeap.HeaderWords | kernel/src/x86_64/heap.c:9-13 | the header words of every block: size, free flag, address of the next or 0 |
| KernelHeap.Allocator.Alloc | kernel/src/x86_64/heap.c:72-102 | in place, is Chain.Alloc; no word of a live block changes |
| KernelHeap.Allocator.FindFit | kernel/src/x86_64/heap.c:79-98 | the walk along next pointers ends at the first fit or at NULL |
| KernelHeap.Allocator.TakeBlock | kernel/src/x86_64/heap.c:82-93 | split and mark in place |
| KernelHeap.Allocator.Free | kernel/src/x86_64/heap.c:104-124 | in place, is Chain.Free; no word of another live block changes |
| KernelHeap.Allocator.Sweep | kernel/src/x86_64/heap.c:114-123 | the loop over the linked headers is Chain.Coalesce |
| HeapTrace.LiveBlockSurvives | kernel/src/x86_64/heap.c:72-124 | over every history of allocations, frees and client stores a block not freed stays live, and its words stay as its owner left them |
| Placement.BitmapMeetsHeapIff | kernel/src/kernel.c:138-141 | the bitmap runs into the heap's 4 MiB if and only if there are more than 2^23 frames |
| Placement.FramesAreSparedIff | kernel/src/x86_64/pmm.c:135-146 | whichever frames someone else relies on: no run gives out one of them if and only if the memory map offers none but frame 0 and the bitmap's own |
| Placement.BitmapIsSpared | kernel/src/x86_64/pmm.c:91-96 | no run after pmm_init gives out a page that holds a byte of the bitmap |
| Placement.HeapIsSparedIff | kernel/src/kernel.c:138-141 | so for the heap: if and only if the map offers no heap frame that the bitmap does not take |
| Placement.StaticsAreSparedIff | kernel/src/x86_64/vmm.c:17-20 | and for the four static page tables |
| Placement.StaticsAreOwnedIff | kernel/src/x86_64/pmm.c:35-99 | after pmm_init the bits of the static tables are set if and only if they lie below the end of the map and it offers none but frames the bitmap takes |
| Placement.KernelImageIsGivenOut | kernel/linker.ld:5 | with the 16 MiB of the two basic sizes a run gives out the first frame of the kernel image |
| Placement.PlainMapGivesOutHeap | kernel/src/kernel.c:138-141 | with 16 MiB of usable memory a run gives out the first frame of the heap |
| Line.PenStaysOnLine | kernel/src/framebuffer.c:163-179 | after k turns: k moves along the longer delta, no overshoot along either, off the ideal line by at most half the longer delta, scaled, and at a tie on one side only |
| Line.CentreIs | kernel/src/framebuffer.c:157-179 | the k-th centre in closed form: k moves along the longer delta, and along the shorter the nearest number of moves, rounded up at a tie |
| Line.LineEndsExactly | kernel/src/framebuffer.c:165-167 | the end test succeeds after as many turns as the longer delta, and not before |
| Line.EveryTurnMoves | kernel/src/framebuffer.c:169-178 | each turn steps to one of the eight neighbours |
| Line.ErrorFits | kernel/src/framebuffer.c:157-178 | while three times the longer delta is below 2^31 every value of the error stays within int32_t |
| Line.CentreBetween | kernel/src/framebuffer.c:163-179 | every centre lies in the box of the endpoints |
| Color.ScaleIsNearest | kernel/src/framebuffer.c:26-36 | the scaled level is the nearest one, fits its field, and keeps black and white |
| Color.PackIsUndone | kernel/src/framebuffer.c:38-47 | with disjoint masks each channel is read back from the packed word |
| Color.PackFits | kernel/src/framebuffer.c:38-47 | the packed word fits 32 bits, so none is cut off |
| Color.MaskShift | boot/uefi/src/main.c:121-129 | the loop counts the zeros below the lowest set bit |
| Color.MaskSize | boot/uefi/src/main.c:131-139 | the loop counts the set bits |
| Color.MaskRebuilt | boot/uefi/src/main.c:121-139 | shift and size of a contiguous mask are recovered |
| Color.MaskIsContiguousIff | boot/uefi/src/main.c:121-139 | shift and size describe the mask if and only if its bits are contiguous |
| Raster.FramebufferInit | kernel/src/framebuffer.c:304-346 | exactly the accepted descriptors give a surface, and that surface is well formed |
| Raster.SurfaceFields | kernel/src/framebuffer.c:313-343 | each field of the surface is that of the descriptor, masks in their lowest eight bits |
| Raster.PixelBytes | kernel/src/framebuffer.c:60-65 | a pixel's bytes lie inside pitch * height and belong to no other pixel |
| Raster.PaintedReads | kernel/src/framebuffer.c:60-65 | after any painting, the bytes of a pixel painted, from y * pitch + x * bytes on and lowest first, are the packed colour cut to the pixel; those of any other pixel are as before |
| Raster.PaddingStays | kernel/src/framebuffer.c:60-65 | bytes past the pixels of a row are as before |
| Raster.ColorReadsBack | kernel/src/framebuffer.c:38-65 | with disjoint masks each channel within the pixel is read back from memory as the scaled level |
| Raster.RectIsExactIff | kernel/src/framebuffer.c:72-73 | the rectangle painted is the one asked for if and only if its far edges do not wrap; otherwise nothing is painted |
| Raster.RoundedIsDistance | kernel/src/framebuffer.c:82-100 | point_in_rounded_rect is distance to the inner rectangle at most the radius |
| Raster.RoundedIsSymmetric | kernel/src/framebuffer.c:82-100 | the shape is its own mirror image in both axes |
| Raster.RoundedRowIsInterval | kernel/src/framebuffer.c:82-100 | each row of the shape is one interval |
| Raster.DiscIsSafeIff | kernel/src/framebuffer.c:132-145 | no int32_t of fill_disc overflows if and only if the edges and the squared radius fit and so does the sum of squares at the scanned corner furthest from the centre |
| Raster.DiscArithmeticFits | kernel/src/framebuffer.c:132-145 | so it is for all centres from -16384 to 24575 and radii up to 16384 |
| Renderer.RoundedOnSurface | kernel/src/framebuffer.c:102-126 | of a box on the surface exactly the pixels at most the radius asked for from the inner rectangle are painted |
| RoundedBox.RoundedIsAskedIff | kernel/src/framebuffer.c:110-124 | what fill_rounded_rect paints is the rounded box asked for, cut off at the edges, if and only if the box lies on the surface, has no radius, or leaves two by two pixels of a corner rounded by 4 or more |
| RoundedBox.HangingBoxLosesPixel | kernel/src/framebuffer.c:110-116 | a 10 by 10 box of radius 2 one pixel over the right edge loses pixel 7 of its top row |
| Renderer.ClippedCornersAreCut | kernel/src/framebuffer.c:114-116 | the four corner pixels of the part on the surface are left out exactly when some radius is left |
| Renderer.DiscInBox | kernel/src/framebuffer.c:132-139 | no pixel of the disc on the surface lies outside the box scanned, for every centre and radius whose edges fit int32_t, also where a far edge wraps |
| Renderer.Surface.PutPixel | kernel/src/framebuffer.c:49-66 | the bytes of the pixel, lowest first, read as the packed colour, and no other byte changes; off the surface nothing does |
| Renderer.Surface.FillRect | kernel/src/framebuffer.c:68-80 | exactly the pixels of the rectangle on the surface are painted, no padding byte is written |
| Renderer.Surface.FillRoundedRect | kernel/src/framebuffer.c:102-126 | exactly the pixels of the rounded clipped box are painted |
| Renderer.Surface.FillDisc | kernel/src/framebuffer.c:128-151 | exactly the pixels of the disc on the surface are painted, whenever nothing overflows |
| Renderer.Surface.DrawThickLine | kernel/src/framebuffer.c:153-180 | exactly the pixels within thickness / 2 of one of the centres of the closed form, both ends included, are painted, whenever nothing overflows |
| Renderer.RangedLineIsSafe | kernel/src/framebuffer.c:153-180 | nothing does when both ends lie from -16384 to 24575 and half the thickness is at most 16384 |
| FirmwareMap.MisreadDescriptor | boot/uefi/src/main.c:271-273 | read from a descriptor the firmware wrote, the start is the type word, the page count the start and the type the low half of VirtualStart |
| FirmwareMap.ConversionIsRightIff | boot/uefi/src/main.c:271-298 | the region made of a descriptor is the memory it describes if and only if PhysicalStart equals the type word, agrees with NumberOfPages modulo 2^52, and VirtualStart's low half names the same kind as Type |
| FirmwareMap.AlignedIsNeverRight | boot/uefi/src/main.c:271-298 | never for page-aligned memory of a type that is no multiple of 4096 |
| FirmwareMap.ClearOfFirmwareMap | kernel/src/x86_64/pmm.c:35-99 | from any map of the firmware to the bitmap, in the firmware's own fields: exactly which frames are clear |
| FirmwareMap.HandedOutOfFirmwareMap | kernel/src/x86_64/pmm.c:135-146 | over every run only such frames are handed out |
| FirmwareMap.EfiReleasesFromZero | boot/uefi/src/main.c:271-298 | with zero padding those are the frames below PhysicalStart of a descriptor with 7 in VirtualStart's low half |
| FirmwareMap.ConventionalIsNotPlain | boot/uefi/src/main.c:271-273 | no conventional descriptor of the firmware reads as one that starts on a page boundary |
| FirmwareMap.ConventionalMemoryIsLost | boot/uefi/src/main.c:265-302 | 16 MiB of conventional memory leave nothing to allocate |
| FirmwareMap.LoaderDataIsHandedOut | boot/uefi/src/main.c:265-302 | a page of loader data with 7 in VirtualStart releases itself and all below it, and frame 1 is handed out |
| FirmwareMap.BecomesUsableIff | boot/uefi/src/main.c:271-298 | a descriptor becomes a usable region if and only if VirtualStart's low half is 7 and PhysicalStart is no multiple of 2^52 |
| FirmwareMap.FirmwareMapGivesNoMemory | boot/uefi/src/main.c:265-302 | with VirtualStart fields left at 0 no memory is usable and alloc_page fails |
| BootMap.Loader.ConvertMemoryMap | boot/uefi/src/main.c:265-302 | the table holds the regions of the first descriptors with a length, at most 256 |
| BootMap.KeptRegion | boot/uefi/src/main.c:276-298 | every region kept is one descriptor with a length, with its start, size and kind |
| BootMap.KeptIsComplete | boot/uefi/src/main.c:270-298 | while the table has room no descriptor with a length is lost |
| BootMap.UsableIsReleased | boot/uefi/src/main.c:265-302 | of any map, as the loader reads it: a frame is in a usable region kept exactly when a conventional descriptor looked at holds it |
| BootMap.HandedOutIsReleased | kernel/src/x86_64/pmm.c:135-146 | of any map, as the loader reads it: over every run a frame handed out is held by a conventional descriptor looked at, and is not reserved |
| BootMap.ClearIsConventional | kernel/src/x86_64/pmm.c:35-99 | of any map, as the loader reads it: a frame is clear exactly when a conventional descriptor looked at holds it and it is not reserved |
| BootMap.HandedOutIsConventional | kernel/src/x86_64/pmm.c:135-146 | of any map whose descriptors share no frame, as the loader reads it: over every run a frame handed out is conventional memory and no other kind, however the table was cut short |
| BootMap.PlainHoldsItsPages | boot/uefi/src/main.c:271-275 | the frames of a descriptor that is aligned and does not wrap are its pages |
| MultibootMap.CollectedIsFaithful | boot/stage1/multiboot.c:211-224 | every region collected is an entry of the list with a length: base, length, kind (1, 3 and 4 their own, all others reserved), no flags |
| MultibootMap.CollectedIsComplete | boot/stage1/multiboot.c:206-224 | while the table has room no entry with a length is lost |
| MultibootMap.ClearOfMultibootMap | kernel/src/x86_64/pmm.c:35-99 | of any Multiboot map whose walk ends, to the bitmap: a frame is clear exactly when an entry visited of type 1 covers it and it is not reserved |
| MultibootMap.EntryRoundTrip | boot/stage1/multiboot.c:44-49 | size, base, length and type written as 4, 8, 8 and 4 little-endian bytes at any address are read back |
| MultibootMap.WalkReadsMap | boot/stage1/multiboot.c:206-225 | the walk over a list of at most 128 entries written one behind the other visits exactly them |
| MultibootMap.ClearOfWrittenMap | kernel/src/x86_64/pmm.c:35-99 | from the bytes of such a list: a frame is clear exactly when it ends inside an entry of type 1 behind its base, and is not reserved |
| MultibootMap.OneEntryClears | boot/stage1/multiboot.c:206-225 | one entry of usable memory from 1 MiB to 0x7FE0000 makes exactly the frames from 256 to 0x7FDF clear, but for the bitmap's |
| MultibootMap.ClearOfBasic | boot/stage1/multiboot.c:227-240 | the clear frames from the two basic sizes |
| MultibootMap.HandedOutOfMultibootMap | kernel/src/x86_64/pmm.c:135-146 | over every run only such frames are handed out |
| MultibootMap.Stage1.CollectMemory | boot/stage1/multiboot.c:199-240 | the map walked if there is one, else the two basic sizes, else nothing |
| MultibootMap.Stage1.WalkMap | boot/stage1/multiboot.c:203-226 | whenever the walk ends, it collects the entries it visits with a length, at most 128 regions |
| MultibootMap.NeverEndsIff | boot/stage1/multiboot.c:206-225 | the walk never ends if and only if, with the guard holding all the way, it comes to entries without a length whose sizes, each with its four bytes, add up to a multiple of 2^32 |
| MultibootMap.LinkedEnds | boot/stage1/multiboot.c:206-225 | a walk whose addresses do not wrap ends, however short its entries |
| MultibootMap.CycleNeverEnds | boot/stage1/multiboot.c:225 | two entries without a length, of sizes 20 and 0xFFFFFFE4, keep the walk going for ever although every turn moves |
| MultibootMap.TurnIsStuckIff | boot/stage1/multiboot.c:211-225 | one turn changes nothing if and only if the entry has no length and the size 0xFFFFFFFC |
| Elf.BasesAreLeast | boot/uefi/src/main.c:427-428 | the two bases are the least physical and the least virtual address of the segments loaded |
| Elf.LoadSegment | boot/uefi/src/main.c:445-452 | file bytes, then zeros, at the target, and nothing outside it; stage 1 cuts address, offset and sizes to 32 bits |
| Elf.LoadSegments | boot/uefi/src/main.c:415-459 | every byte is what the last segment loaded over it asks for, or as before; bases are minima; the UEFI loader stops at the first refused allocation |
| Elf.AllInPlace | boot/uefi/src/main.c:415-459 | with targets that do not overlap every loadable segment is in place at the end |
| Elf.LoadedReads | boot/stage1/multiboot.c:264-276 | a segment none of whose fields is cut, loaded, reads where it asks to be as its file bytes followed by zeros up to memsz |
| Elf.UefiFillsPages | boot/uefi/src/main.c:431-452 | the UEFI loader writes exactly the pages from paddr to the one of the last byte, and leaves zeros to the end of the last |
| Elf.Stage1CoversIff | boot/stage1/multiboot.c:270-274 | stage 1 writes all the memory a segment asks for if and only if its address and size have 32 bits |
| Console.NewlineShows | aurelian-os-v1/kernel/vga.c:35-50 | newline and scrolling keep the screen the last 25 rows of an endless page |
| Console.PutcShows | aurelian-os-v1/kernel/vga.c:52-69 | so does every character: wrap, tab, carriage return |
| Console.PutcWrites | aurelian-os-v1/kernel/vga.c:67-68 | a printed character is the low byte of the cell at the cursor, the colour its high byte, one row up after a scroll; other cells stay and a fresh row is spaces |
| Console.ScreenIsWindow | aurelian-os-v1/kernel/vga.c:22-75 | after any stream of characters, colours and clears the screen is the last 25 rows of the endless page and the cursor is on it |
| Console.ScrolledRowsStay | aurelian-os-v1/kernel/vga.c:35-50 | rows that left the screen never change again without a clear |
| Console.Vga.ClearScreen | aurelian-os-v1/kernel/vga.c:27-33 | blank cells in the current colour, cursor at the top left |
| Console.Vga.NewLine | aurelian-os-v1/kernel/vga.c:35-50 | the nested copy loops shift the buffer up one row and blank the last |
| Console.Vga.PutChar | aurelian-os-v1/kernel/vga.c:52-69 | in place, is Console.Putc |
| Console.TypedIs | aurelian-os-v1/kernel/vga.c:71-75 | what a string types is its characters up to the first zero, in order |
| Console.Vga.PutString | aurelian-os-v1/kernel/vga.c:71-75 | the characters up to the terminating zero, one by one |
| Digits.ParseOfText | aurelian-os-v1/kernel/string.c:45-65 | parsing the text gives back the number, for every base |
| Digits.TextIsProper | aurelian-os-v1/kernel/string.c:45-65 | only digits of the base, and no leading zero |
| Digits.DigitInTable | aurelian-os-v1/kernel/string.c:47 | digit d is character d of 0123456789abcdef |
| Digits.TextIsInjective | aurelian-os-v1/kernel/string.c:45-65 | different numbers have different texts in every base |
| Digits.BackwardsFits | aurelian-os-v1/kernel/string.c:57 | a uint32_t has at most 32 digits, so the guard on 33 places never cuts one off |
| Digits.ReversedIsText | aurelian-os-v1/kernel/string.c:57-62 | digits found from the low end and turned round are the text |
| Digits.Uitoa | aurelian-os-v1/kernel/string.c:45-65 | the buffer holds a zero-terminated text that parses to the number in the base asked for, bases outside 2 to 16 being 10; the rest of it is untouched |

## Left out

- Vmm.Manager.MapPage: for a page under a 2 MiB leaf whose frame is itself a table, it is PageTables.Map like any other call, but the shape invariant is not promised after it: the store goes into a live table.
- PageRuns.RunKeepsTables: runs contain no such call, which can break the result (BootState.UnmapUnderLeafBreaksWindow) unless it stores the word that was there; BootRuns.TablesSparedIff says when no run comes to one. Clients free only frames they hold.
- PageTables.MapWorksIff: takes the tables to be within reach, as all of PageTables does (TableReach.ReachKeptIff), frame 0 to be marked, as pmm_init leaves it, and the frame of a 2 MiB leaf not to be a table.
- Vmm.Manager.Init: promises the shape invariant when the frames of the static tables are marked in the bitmap; Placement.StaticsAreOwnedIff says when they are.
- Vmm.Manager.UnmapPage: the TLB and `invlpg` are not modelled; the load of CR3 is only the choice of the root that the walk starts from.
- Vmm.Manager.BuildTables: `pt_kernel` is zeroed by the source and used nowhere, and has no frame in the model.
- Pmm.PageAllocator.Init: the bitmap is an array of its own rather than a part of physical memory; that its frames are never handed out is Pages.ReservedStaysMarked.
- KernelHeap.Allocator.constructor: the heap's memory is an array of 8-byte words, so the region starts at a multiple of 8 (the kernel's at 4 MiB), and it holds at least a header; `is_free` takes a whole word with its padding.
- KernelHeap.Allocator.Free: takes a pointer to the payload of a block in the list. A pointer to anything else is not modelled; freeing a block twice is.
- Renderer.Surface.FillDisc: inputs on which an int32_t overflows, or the squared radius does not fit one, are not modelled; Raster.DiscIsSafeIff says which those are.
- Renderer.Surface.DrawThickLine: likewise, at every centre, and for the error of the line (Line.LineFits).
- Elf.LoadSegments: the file image is separate from the memory written, program headers are taken as parsed, and source and target of a segment as being there; a target that wraps round the 32-bit address space of stage 1 is not modelled.
- MultibootMap.Stage1.WalkMap: takes the walk to end; MultibootMap.NeverEndsIff is the exact condition.
- Serial output, port I/O, GDT and IDT, assembly, and firmware calls: hardware and foreign code. Whether the firmware grants pages is an input.
- Glyphs, captions, splash layout, the non-scrolling console of kernel/src/console.c, string and memory helpers: no property beyond their loops.
