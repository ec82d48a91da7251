# H3OS: verified models of the kernel's data structures and protocols

H3OS is a small x86_64 kernel in C. This project states in Dafny what its stateful core does
and proves it: the page-bitmap allocator and the four-level page tables built from it, the
kernel heap, the RAM file system and the heap blocks that hold its files, the PE32+ loader and
the tool that builds its sample program, the spinlocks, mutex and semaphore, the keyboard ring,
the line rasteriser, and the window stack.

Each component has the same shape. What the C code does is written twice: as a class or method
that updates bytes, arrays and fields in the order the C code does, and as functions on values
(a set of free pages, a list of blocks, a tree of nodes, a list of windows). The contracts of
the methods tie the two together, and the theorems about single calls and about all runs are
lemmas about the functions.

| files | component |
|---|---|
| `Bytes.dfy`, `Packing.dfy` | little-endian words in byte buffers, and values and records packed one after the other |
| `Pages.dfy`, `Pmm.dfy`, `Multiboot.dfy` | physical pages: the set of free pages, the packed bitmap that represents it, the boot memory map it is filled from |
| `Paging.dfy`, `Reach.dfy`, `PagingRuns.dfy`, `Vmm.dfy` | four-level page tables in frames (4-level paging, section 4.5 of the Intel SDM, volume 3A), the partial map they denote, the frames the code can touch through them, and every run of the calls |
| `Blocks.dfy`, `Lifetimes.dfy`, `Regions.dfy`, `HeapRuns.dfy`, `Heap.dfy` | the heap as a list of blocks, which of them are live, its regions, runs that put blocks out of address order, and its 40-byte headers in memory |
| `Paths.dfy`, `Tree.dfy`, `FileTree.dfy`, `Contents.dfy`, `Storage.dfy`, `Leaks.dfy`, `Renames.dfy`, `DeepPaths.dfy`, `Vfs.dfy` | path strings, the node array, the name space it denotes, file contents in heap blocks, the whole file system as one value with its runs, the blocks it accounts for, renames and deep directories, and the VFS calls on memory |
| `Reloc.dfy`, `Loader.dfy`, `PeLayout.dfy`, `MkPe.dfy`, `Blob.dfy` | base relocation ("The .reloc Section (Image Only)" of the Microsoft PE Format), probing and mapping, files and directories as a writer lays them out, the file builder, and a run of the program it builds (x86-64 instructions, Intel SDM, volume 2) |
| `Sync.dfy`, `Keyboard.dfy` | the two protocols, one memory access per step |
| `Line.dfy`, `LineWords.dfy`, `Wm.dfy` | Bresenham's line on a clipped framebuffer and the 32-bit words of its loop; windows, focus, paint order and hit testing |

## What holds

* **Pages.** The bitmap is a set of free pages and a counter of the others. A request returns
  the lowest run, and 0 exactly when there is none; freeing it restores every bit. The memory
  map read at boot is the one written into the boot structure, entry by entry; after `pmm_init`
  a page is free exactly when it lies in available memory, above 1 MiB and outside the kernel
  image, and none of the others is ever handed out.
* **Page tables.** In every run of map and unmap the tables form a tree of reserved frames, and
  resolving an address is looking it up in the map the calls describe. A map call that fails,
  even halfway, changes no translation; the boot identity map survives everything. The code
  uses physical addresses as pointers: as long as all frames in play lie below 1 GiB, every
  access of every call lands in the frame it is meant for.
* **Heap.** As long as no free merges blocks across the seam between two regions, blocks never
  overlap each other or a free page, headers and links stay intact (the corruption panic cannot
  be reached), counters are exact, and no call changes a byte of another live payload; the live
  blocks are exactly those handed out and not given back. A run
  confined to one region crosses no seam and tiles it, with no two free neighbours; with more
  regions the list is one tiling after the other, and a free inside a region crosses no seam.
* **File system.** The node array denotes a prefix-closed map from component paths to entries;
  every call changes that map in the one way its name says. In every run in a heap of one region
  that does not grow, every data pointer is a live heap block of its own with room for its file
  and every free is of such a block, so nothing is freed twice. With more regions the same
  holds as long as no free crosses a seam; then a file's bytes in memory are those last written
  to it, and no block leaks: from the start the live blocks are exactly the nodes' own.
* **Loader.** Relocation moves each target by the difference of the bases, modulo its width, and
  nothing else; rebasing composes. In every file laid out as the format says the loader finds the
  fields, the section table and directory 5, and a relocated pointer points to the byte it
  pointed to. The builder's file is accepted, mapped byte for byte, and its program, run at
  whatever base it is loaded, prints its two messages and returns 0.
* **Protocols.** For any number of threads and any interleaving each lock section has at most
  one occupant and a mutex at most one holder; a call that has returned has done its work, once.
  The keyboard ring delivers what it accepted, in order, and a read or push that ends has moved
  its one character.
* **Graphics.** The line loop ends, plots the right number of points and stays within half a
  pixel of the ideal line. A hit test finds the window painted last over the point.

## What does not hold

Each of these is proved of the code as it is, with the condition under which it does hold.

* `pmm_alloc_pages` reports failure for a run that starts at page 0, and loses the pages
  (`Pages.AllocZeroAmbiguous`, `Pages.AllocZeroLosesPage`); page 0 is reserved at boot.
* `pmm_free_pages` of a run that passes 2^64 goes on with page 0 (`Pages.FreeEachWraps`); one
  that does not frees its own pages (`Pages.FreeEachIs`).
* The page allocator tracks 2 GiB and the boot tables map one. A map call touches only the frames
  it means to exactly when the frames it takes for missing tables are mapped to themselves
  (`Reach.MapReachExact`), which from boot means that they lie below 1 GiB
  (`Reach.BootReachExact`); with the first frame above, it writes where nothing is mapped
  (`Reach.MapOutOfReach`).
* `coalesce` merges neighbours in the list without comparing addresses. A free keeps the set of
  covered addresses exactly when the block and its free neighbours make up one stretch of memory
  that starts at the first of them (`Blocks.FreeExact`). In a run of two allocations from
  heap_init a free does not, its block covers a page the page allocator still has, and two
  allocations later two live blocks overlap (`HeapRuns.FreeAcrossRegions`). Neighbours in the
  wrong order can be harmless (`HeapRuns.FreeSwapped`).
* `HEAP_ALIGN` is 16, but a header has 40 bytes. What kmalloc returns is 16-aligned exactly when
  the first free block that fits lies 8 past a multiple of 16 (`Blocks.MallocAlignment`), and the
  first allocation never is (`Blocks.FirstPayloadMisaligned`).
* A pointer from kmalloc has room for the size asked for exactly when that size is at most
  2^64 - 16 (`Blocks.MallocHolds`); the initial heap answers 2^64 - 1 bytes with a block of 32
  (`Blocks.MallocTooSmall`).
* Within two pages of 2^64 the page computation wraps too: a request no block fits then gets NULL
  even when pages are free, after growing the heap for nothing (`Blocks.MallocExact`,
  `Blocks.MallocWraps`).
* An entry named `.` or `..` can be made, and no path from any working directory leads to it
  (`FileTree.MakeThenResolve`, `FileTree.DotsUnreachable`, `FileTree.MkdirDotUnreachable`).
* A component of 128 characters or more is not cut but read as two (`Paths.LongWord`).
* `vfs_rename` takes the byte count of its copy for a failure: once the copy is made it goes on
  to unlink the source exactly when the file's size is a multiple of 2^32, and else reports a
  failure and leaves both files (`Storage.RenameExact`, `Renames.RenameStays`). It has moved the
  file exactly when, besides, the two are different nodes and an empty file meets no other
  contents (`Renames.RenameMoves`, `Renames.RenameLosesEmpty`, `Renames.RenameLosesItself`).
* `vfs_chdir` deeper than 32 levels leaves a working directory that does not resolve to the
  directory chosen (`FileTree.ChdirExact`, `DeepPaths.ChdirTooDeep`).
* The line loop overflows its 32-bit words on long lines. It stays within them exactly when the
  two extents, their greatest common divisor and the largest multiple of it up to half the longer
  one meet the condition of `LineWords.LineExact`. A level line overflows from 2^30 pixels on
  (`LineWords.LevelExact`), a diagonal not before its extent does (`LineWords.DiagonalExact`).
* The builder writes the DLL characteristics at offset 68 of the optional header, over the
  subsystem it has just written, and everything after that two bytes early. The loader therefore
  reads no data directories, and never relocates such a file (`MkPe.BuiltAccepted`).
* The focused flag and the focused pointer part when nothing is focused while the focused window
  is shown, and in no other call (`Windows.AgreementBroken`); hit testing is right regardless.
* A maximised window hidden from the taskbar comes back as a normal window of full size, its old
  rectangle overwritten at the next zoom (`Windows.HideAndShow`, `Windows.ZoomTwice`).

## Model

| member | source | states |
|---|---|---|
| `Pages.FindRun` | memory/pmm.c:125-137 | the run found is the lowest-starting free one; None means that no run of that length is free anywhere |
| `Pages.AllocExact` | memory/pmm.c:121-139 | a request returns 0 exactly when no free run of that length exists, and then changes nothing; otherwise it takes exactly the lowest run |
| `Pages.AllocZeroAmbiguous` | memory/pmm.c:125-138 | 0 is returned although a run is free exactly when the run starting at page 0 is free, and then that run is lost |
| `Pages.AllocZeroLosesPage` | memory/pmm.c:110-119 | a concrete allocator whose only page is consumed by a call that reports failure |
| `Pages.AllocOne` | memory/pmm.c:110-119 | one page is found exactly when some page is free; it is the lowest, and one page fewer is free |
| `Pages.FreeUndoesAlloc` | memory/pmm.c:121-154 | freeing what was just allocated restores the allocator exactly |
| `Pages.FreeEachExact` | memory/pmm.c:150-154 | exactly the tracked pages that some turn names become free |
| `Pages.FreeEachIs` | memory/pmm.c:150-154 | these are the pages of the run if no turn's address passes 2^64 |
| `Pages.FreeEachWraps` | memory/pmm.c:150-154 | a run of which some turn's address does frees page 0 |
| `Pages.RunConserves` | memory/pmm.c:110-154 | over any run of a client that frees what it holds, free and held pages are disjoint and their union never changes |
| `Pmm.MaskIsShift` | memory/pmm.c:20-30 | the tabulated bit masks are the shifts of 1 |
| `Pmm.SetBit` | memory/pmm.c:24-26 | setting a bit of a byte sets that bit and keeps the other seven |
| `Pmm.ClearBit` | memory/pmm.c:28-30 | clearing a bit of a byte clears that bit and keeps the other seven |
| `Pmm.BitmapDetermined` | memory/pmm.c:15-22 | two bitmaps with the same used pages are the same bytes, so that restoring the set restores the bitmap |
| `Pmm.Allocator.Set` | memory/pmm.c:24-26 | of all tracked pages exactly the one named becomes used |
| `Pmm.Allocator.Clear` | memory/pmm.c:28-30 | of all tracked pages exactly the one named becomes unused |
| `Pmm.Allocator.ReserveRegion` | memory/pmm.c:32-41 | exactly the free pages touched by the region are taken, and the counter follows |
| `Pmm.Allocator.ScanEntry` | memory/pmm.c:74-87 | one map entry raises the limit to its end and frees exactly the pages wholly inside it, if it is available |
| `Pmm.Allocator.ScanMap` | memory/pmm.c:73-88 | after all entries a page is clear exactly when it lies wholly inside some available one |
| `Pmm.Allocator.CountUsed` | memory/pmm.c:90-94 | the recount makes used_pages the number of set bits below the limit |
| `Pmm.Allocator.LoadMap` | memory/pmm.c:56-95 | with the map, or the 128 MiB fallback, the free pages are exactly the available ones below the limit |
| `Pmm.Allocator.Init` | memory/pmm.c:56-99 | a page is free exactly when it is tracked, available, at or above 1 MiB and outside the page-rounded kernel image |
| `Pmm.Allocator.AllocPage` | memory/pmm.c:110-119 | the bitmap loop is the abstract allocation of one page |
| `Pmm.Allocator.AllocPages` | memory/pmm.c:121-139 | the nested bitmap loops, their sum a 64-bit word, are the abstract first-fit allocation |
| `Pmm.Allocator.FreePage` | memory/pmm.c:141-148 | the bitmap update is the abstract free, including pages out of range or already free |
| `Pmm.Allocator.FreePages` | memory/pmm.c:150-154 | page by page, each address a 64-bit word, the pages named become free; these are the whole run as long as no turn's address passes 2^64 |
| `Pmm.Allocator.GetStats` | memory/pmm.c:156-161 | used and free add up to the total, and the free count is the size of the free set |
| `Pmm.BootRunNeverHandsOutReserved` | memory/pmm.c:56-148 | from the state pmm_init leaves, no client run ever holds a kernel page, a low page, or one outside available memory |
| `Pmm.MapRoundTrip` | memory/pmm.c:43-88 | in a structure built from tags of which the first of kind 6 carries any list of entries, each as address, length and type in entries of any size from 24 bytes on, the map read is that list |
| `Pmm.NoMapRoundTrip` | memory/pmm.c:43-68 | in a structure without such a tag no map is found |
| `Pmm.BootFreeIs` | memory/pmm.c:62-99 | the pages left free, in addresses: at or above 1 MiB and the end of the kernel, below 2 GiB, every byte in one available entry, or below 128 MiB when there is no map |
| `Pmm.TrackedIs` | memory/pmm.c:70-88 | the number of pages tracked is the least that covers every entry, at most 2 GiB; without a map 128 MiB |
| `Multiboot.FindTag` | memory/pmm.c:43-54 | a tag found has the type asked for and lies inside the structure |
| `Multiboot.Mb2Find` | memory/pmm.c:43-54 | the pointer loop finds what the recursive search finds, or nothing for a null structure |
| `Multiboot.FindInBootInfo` | memory/pmm.c:43-54 | in a structure built from a list of tags the search finds the first tag of the kind, with its payload, and nothing when there is none |
| `Multiboot.EntryInside` | memory/pmm.c:73-75 | every entry counted from the tag's size lies inside the structure |
| `Multiboot.EntriesBack` | memory/pmm.c:73-75 | where a tag carries a list of entries, each is read back with its own address, length and type, and there are no more |
| `Multiboot.Align8Is` | memory/pmm.c:51 | the next tag starts at the first multiple of eight at or behind the end of this one |
| `Packing.GetRecord` | memory/pmm.c:75 | a word of the record numbered i is read at its place in that record, whatever the records' common size |
| `Paging.WalkAllocOk` | memory/vmm.c:14-22 | a descent keeps the table tree and every translation, adds exactly one table if the entry was empty, and fails exactly when it was empty and no frame is free |
| `Paging.HungTranslate` | memory/vmm.c:14-22 | hanging a fresh zeroed table changes no translation of any address |
| `Paging.HungInv` | memory/vmm.c:14-22 | the fresh table's frame was free, so the tables stay a tree: one parent entry each |
| `Paging.MapRefines` | memory/vmm.c:29-49 | a map call succeeds exactly when the page is not under a huge page and the free frames suffice for the missing tables; then only that page's translation changes, and on failure none does |
| `Paging.UnmapRefines` | memory/vmm.c:51-67 | an unmap succeeds exactly when the page table exists; then only that page loses its translation |
| `Paging.UnmapUndoesMap` | memory/vmm.c:29-67 | mapping an untranslated page and unmapping it restores the whole translation function |
| `Paging.LeafTranslate` | memory/vmm.c:46-64 | writing one leaf word changes the translation of its page and of no other |
| `Paging.LeafBits` | memory/vmm.c:19-46 | the low twelve bits of a leaf are those of the flags with PRESENT set, its upper bits the physical page; an entry that hangs a table says present and writable |
| `Paging.SamePage` | memory/vmm.c:30-33 | two addresses share their four indices exactly when they agree on bits 12 to 47 |
| `Paging.LowBits` | memory/vmm.c:69-86 | only the low 48 bits of an address matter |
| `Paging.BootOk` | boot/boot.asm:64-84 | the boot tables form a tree and map exactly the first GiB, each address to itself |
| `Reach.MapReachExact` | memory/vmm.c:14-49 | with the tables at hand in reach, every access of a map call reaches its frame exactly if the frames that the missing tables take are mapped to themselves |
| `Reach.LowReach` | memory/vmm.c:4-5 | with the first GiB mapped to itself and all frames in play below it, every table and every access of any map, unmap or resolve is in reach |
| `Reach.BootReachExact` | memory/vmm.c:14-49 | from the boot tables that means that no frame taken lies at or above 1 GiB |
| `Reach.NoneLow` | memory/vmm.c:14-49 | from boot, with no frame below 1 GiB free, every map call that needs a table writes where nothing is mapped |
| `Reach.MapOutOfReach` | memory/pmm.c:13 | a boot state whose only free frames lie past 1 GiB: the map call reports success, having written its table where nothing is mapped |
| `PagingRuns.RunRefines` | memory/vmm.c:14-86 | over any run of map, unmap and page traffic whose accesses reach their frames the tables stay a tree of reserved frames and denote the partial map the calls describe |
| `PagingRuns.LowRunRefines` | memory/vmm.c:14-86 | if only frames below 1 GiB are in play, every access of the run reaches its frame, and every table of the state reached is mapped to itself |
| `PagingRuns.BootRunRefines` | boot/boot.asm:68-84 | the same from boot, and every address below 1 GiB still resolves to itself |
| `Vmm.Mmu.TableWalkAlloc` | memory/vmm.c:14-22 | each access made where the tables lead at that moment, the table write and the allocator call together are the abstract descent |
| `Vmm.Mmu.MapPage` | memory/vmm.c:29-49 | the call on tables and bitmap has the effect MapRefines describes |
| `Vmm.Mmu.UnmapPage` | memory/vmm.c:51-67 | the accesses through the tables have the effect UnmapRefines describes |
| `Vmm.Mmu.Resolve` | memory/vmm.c:69-86 | the answer is the translation; it is 0 exactly when there is none or it is address 0 |
| `Blocks.FirstFit` | memory/heap.c:82-86 | the block chosen fits and no earlier one does |
| `Blocks.TakeOk` | memory/heap.c:86-103 | splitting and taking a block keeps separation, alignment and exact counters, and grants a block of at least the size |
| `Blocks.ExpandOk` | memory/heap.c:67-74 | growth succeeds exactly when a page run of the computed length is free, and prepends one free block that overlaps nothing |
| `Blocks.GrowthFits` | memory/heap.c:67-68 | the region asked for holds the request, a header and a page to spare, unless the page computation wraps |
| `Blocks.MallocOk` | memory/heap.c:76-109 | every allocation keeps the invariant and all live blocks, and its result is a live block of the rounded size that was not live before |
| `Blocks.MallocExact` | memory/heap.c:76-109 | for every size: NULL exactly when no free block fits and the page allocator has no run of the computed length or that computation wraps; a NULL changes nothing unless it wrapped; a growing call adds one region, is served from its head, and leaves all other blocks alone |
| `Blocks.MallocWraps` | memory/heap.c:67-109 | when the page computation wraps, a request no block fits gets NULL, and the heap grows for it whenever a run of the wrapped length is free |
| `Blocks.MallocHolds` | memory/heap.c:76-104 | a block kmalloc returns holds the size asked for exactly when that size is at most 2^64 - 16 |
| `Blocks.MallocTooSmall` | memory/heap.c:78-104 | the initial heap answers a request for 2^64 - 1 bytes with a block of 32 |
| `Blocks.GrantedSize` | memory/heap.c:76-103 | a block granted for the rounded size holds the size asked for |
| `Lifetimes.RoundUpIs` | memory/heap.c:78-79 | a size up to 2^64 - 16 is rounded to the least multiple of 16 that is not below it nor below 32 |
| `Lifetimes.RegionIs` | memory/heap.c:32-43 | fewer than 72 bytes are ignored; more become one free block in front of the list, 40 bytes of them its header |
| `Lifetimes.GrowthIs` | memory/heap.c:67-68 | the pages asked for are the least number that holds the request, a header and one page |
| `Lifetimes.MallocAdds` | memory/heap.c:76-109 | exactly one more block is live, the one returned, less than 72 bytes larger than the rounded size; heap_used and heap_allocs follow; with NULL no live block, and neither counter, has changed |
| `Blocks.MergeExact` | memory/heap.c:54-65 | merging two list neighbours keeps the set of covered addresses exactly when they touch in memory |
| `Blocks.FreeExact` | memory/heap.c:54-128 | a free of a live block keeps the set of covered addresses exactly when the block and its free list neighbours make up one stretch of memory, in list order or with successor and block exchanged |
| `HeapRuns.FreeAcrossRegions` | memory/heap.c:54-109 | in a run from heap_init a free of a live block swallows the end of a later region and covers a page still free in the page allocator; two allocations on, two live blocks overlap |
| `HeapRuns.FreeSwapped` | memory/heap.c:54-128 | in a run from heap_init, pages given back in between, a free finds its neighbours in the wrong order and is harmless |
| `Regions.RunLaid` | memory/heap.c:32-128 | over any run in which a free finds its free neighbours in its own region, with any number of regions: no free crosses a seam, the heap stays sound, and the list is one exact tiling after the other, new regions in front |
| `Regions.RegionTiles` | memory/heap.c:32-43 | the blocks of a region tile it exactly |
| `Regions.InnerFree` | memory/heap.c:54-128 | a block that is neither the first nor the last of its region may always be freed |
| `Regions.InitLaid` | memory/heap.c:45-52 | heap_init leaves one region, tiled |
| `Blocks.FreeOk` | memory/heap.c:118-128 | every such free keeps the invariant and every other live block |
| `Lifetimes.FreeDrops` | memory/heap.c:118-128 | of the live blocks exactly the one at the pointer is live no more, and heap_used drops by its size |
| `Lifetimes.ReallocIs` | memory/heap.c:130-140 | a block that is large enough stays; else the pointer returned is another, live block of the size asked for and the old one is live no more, or it is NULL and the old one still is |
| `Blocks.FreeTiles` | memory/heap.c:118-128 | in one region every free is such a free, and restores the tiling with no two free neighbours |
| `Blocks.RunSafe` | memory/heap.c:54-140 | over any run of malloc, free and realloc in any number of regions whose frees are such frees: no overlap, no free page touched, exact counters |
| `Lifetimes.RunLedger` | memory/heap.c:76-140 | over any run whose frees cross no seam the live blocks are exactly those whose pointers the client was given and has not given back |
| `Blocks.RunTiles` | memory/heap.c:54-140 | over any run that stays in one region, every free is such a free, the list tiles the region in address order, no two neighbours are free, and heap_total never changes |
| `Blocks.AttemptTotal` | memory/heap.c:81-106 | a call that added a region shows in heap_total |
| `Blocks.InitOk` | memory/heap.c:45-52 | heap_init establishes the invariant and the tiling |
| `Blocks.MallocAlignment` | memory/heap.c:76-104 | what kmalloc returns is 8-aligned, and 16-aligned exactly when the first free block that fits starts 8 past a multiple of 16 |
| `Blocks.FirstPayloadMisaligned` | memory/heap.c:45-104 | the first allocation after heap_init, of whatever size, is 8 past a multiple of 16 |
| `KernelHeap.WordWritten` | memory/heap.c:18-24 | writing one header word changes that field of the header and no other |
| `KernelHeap.HeadersMissPayload` | memory/heap.c:18-24 | header writes touch no payload byte of any block |
| `KernelHeap.StoreKeepsList` | memory/heap.c:114-137 | bytes stored inside one payload disturb no header, no link and no other payload |
| `KernelHeap.Heap.Split` | memory/heap.c:88-98 | the header writes of a split leave a doubly linked list with the block cut in two, and change headers only |
| `KernelHeap.Heap.Absorb` | memory/heap.c:55-64 | the header writes of one merge leave a doubly linked list with the two neighbours joined |
| `KernelHeap.Heap.CoalesceAt` | memory/heap.c:54-65 | both merges together are the abstract coalescing, and keep every live payload |
| `KernelHeap.Heap.HeapAddRegion` | memory/heap.c:32-43 | a region large enough becomes the new head of an intact list, a smaller one is ignored |
| `KernelHeap.Heap.HeapInit` | memory/heap.c:45-52 | the state after initialisation is the one-block heap of the arena |
| `KernelHeap.Heap.ExpandHeap` | memory/heap.c:67-74 | the call on memory and bitmap is the abstract expansion, and keeps every live payload |
| `KernelHeap.Heap.TakeFirstFit` | memory/heap.c:82-104 | the pass over the headers takes the first fit, and never meets a header without the magic number |
| `KernelHeap.Heap.Kmalloc` | memory/heap.c:76-109 | on memory, links and bitmap: the abstract allocation, no panic, and every live payload byte kept |
| `KernelHeap.Heap.Kfree` | memory/heap.c:118-128 | on memory and links, for null, any listed block and any pointer whose header reads free or lacks the magic number: the abstract free, every other live block and its bytes kept, the heap sound afterwards unless the free crosses a seam, and the same free again refused even if the block was merged away |
| `KernelHeap.Heap.Kcalloc` | memory/heap.c:111-116 | all bytes of the product (modulo 2^64) are zero, and every other live payload is kept |
| `KernelHeap.Heap.Krealloc` | memory/heap.c:130-140 | the abstract resize; the new block starts with the whole old payload, or, if there is none, the old block and its bytes are kept; every other live payload is kept, and the heap is sound afterwards unless the free crosses a seam |
| `KernelHeap.Heap.HeapGetStats` | memory/heap.c:142-147 | used is the sum of the allocated sizes, and used and free add up to the sum of all blocks with their headers |
| `Paths.WordLen` | filesystem/vfs/vfs.c:101-104 | a component ends at a slash, at the end, or at the buffer's capacity |
| `Paths.LongWord` | filesystem/vfs/vfs.c:91-116 | a component of 128 characters or more is read as its first 127 and then the rest as a component of its own |
| `Paths.LastSlash` | filesystem/vfs/vfs.c:122-123 | the position found holds a slash and none follows it |
| `Paths.PartsConcat` | filesystem/vfs/vfs.c:98-106 | a slash between two strings separates their components, whatever they are |
| `Paths.PartsJoin` | filesystem/vfs/vfs.c:222-227 | cutting a printed absolute path gives back its components |
| `Paths.PartsLeaf` | filesystem/vfs/vfs.c:118-131 | splitting at the last slash splits off the last component |
| `Paths.PartsRelative` | filesystem/vfs/vfs.c:80-89 | normalising a relative path puts the working directory's components first |
| `Tree.FindIn` | filesystem/vfs/vfs.c:30-35 | the node found is a child with that name; None means that no child has it |
| `Tree.LookupIff` | filesystem/vfs/vfs.c:24-35 | paths and hanging nodes correspond one to one |
| `Tree.LinkWf` | filesystem/vfs/vfs.c:14-28 | hanging a new name keeps chains finite, indices ordered and sibling names distinct |
| `Tree.LinkRefines` | filesystem/vfs/vfs.c:24-28 | hanging a node adds exactly one path |
| `Tree.UnlinkWf` | filesystem/vfs/vfs.c:180-189 | unchaining keeps chains finite, indices ordered and sibling names distinct |
| `Tree.UnlinkRefines` | filesystem/vfs/vfs.c:178-189 | unlinking removes exactly the paths at and below the node's |
| `FileTree.WalkConcat` | filesystem/vfs/vfs.c:101-115 | walking a joined path is the composition of the two walks |
| `FileTree.ResolveRelative` | filesystem/vfs/vfs.c:80-116 | a relative path leads where walking it from the working directory's node leads |
| `FileTree.LongPath` | filesystem/vfs/vfs.c:80-84 | an absolute path of 256 characters or more is read as its first 255 |
| `FileTree.WalkDenotes` | filesystem/vfs/vfs.c:101-115 | walking the node array and travelling the abstract map agree, `..` included |
| `FileTree.MakeRefines` | filesystem/vfs/vfs.c:133-153 | mkdir and create add exactly one entry, or find it there, or fail and change nothing, as the map says |
| `FileTree.MakeReturns` | filesystem/vfs/vfs.c:133-153 | the call returns the node found at the path afterwards, there before and unchanged or new, empty and of the kind and mode asked for; nothing when the directory part names no directory, the name is empty or every slot is taken |
| `FileTree.RemoveRefines` | filesystem/vfs/vfs.c:175-191 | unlink removes exactly the subtree at the resolved path, never the root |
| `FileTree.RemoveReturns` | filesystem/vfs/vfs.c:175-191 | unlink succeeds exactly for a path that leads to something other than the root, which is not found there afterwards |
| `FileTree.MakeThenResolve` | filesystem/vfs/vfs.c:91-153 | resolving the path just made returns the node exactly when the last component is neither `.` nor `..` |
| `FileTree.DotsUnreachable` | filesystem/vfs/vfs.c:91-116 | no path from any working directory leads to a node below a name `.` or `..` |
| `FileTree.MkdirDotUnreachable` | filesystem/vfs/vfs.c:107-142 | the entry `.` made in the root exists in the array, and no path from any working directory leads to it |
| `FileTree.MakeKeepsPath` | filesystem/vfs/vfs.c:91-153 | every path that led somewhere before mkdir or create leads to the same node afterwards |
| `FileTree.ChdirExact` | filesystem/vfs/vfs.c:212-229 | the rebuilt working directory resolves to the directory chosen exactly when it is at most 32 levels deep, and is then its canonical path |
| `FileTree.ChdirSucceeds` | filesystem/vfs/vfs.c:212-214 | chdir succeeds exactly for a path that leads to a directory, and else changes nothing |
| `FileTree.ChdirString` | filesystem/vfs/vfs.c:217-228 | the string is made of the names on the way to the directory, the last 32 if there are more |
| `FileTree.ChdirThenRelative` | filesystem/vfs/vfs.c:80-116 | after such a chdir a relative path leads where walking it from the chosen directory leads |
| `DeepPaths.ChdirDeep` | filesystem/vfs/vfs.c:212-229 | entering the deepest directory of such a chain below level 32 succeeds and leaves a working directory that leads elsewhere |
| `DeepPaths.ChdirTooDeep` | filesystem/vfs/vfs.c:133-229 | 33 calls of mkdir make the first such directory |
| `FileTree.RunRefines` | filesystem/vfs/vfs.c:91-229 | over any run of mkdir, create, unlink and chdir the array denotes the map the abstract calls build, and stays well formed |
| `FileTree.InitRep` | filesystem/vfs/vfs.c:37-41 | the root alone denotes the map with one entry |
| `Contents.AllKept` | filesystem/vfs/vfs.c:155-164 | an allocation keeps every file's contents and every pointer's block |
| `Contents.FreedOk` | filesystem/vfs/vfs.c:161-163 | releasing one node's block and repointing it leaves every other file's contents and keeps pointers distinct |
| `Contents.FreshPointer` | filesystem/vfs/vfs.c:157-162 | a block just granted is no node's |
| `Contents.SwapOk` | filesystem/vfs/vfs.c:155-165 | after the swap the node holds the new bytes and no other node changed; pointers stay distinct live blocks if the heap's blocks stay apart |
| `Storage.InitSound` | filesystem/vfs/vfs.c:37-41 | the state vfs_init sets up is sound in any sound heap |
| `Storage.WriteExact` | filesystem/vfs/vfs.c:155-165 | a write succeeds exactly for a file for which kmalloc has room; then the file holds the buffer, and in any case no other file changes and every path leads where it led |
| `Storage.CopyExact` | filesystem/vfs/vfs.c:193-200 | a copy gives the target the source's bytes, found at the path given exactly when that does not end in `.` or `..`, and changes no other file |
| `Storage.CopiedMode` | filesystem/vfs/vfs.c:193-198 | a file that a copy makes has its source's mode, or 0644 if that is 0 |
| `Storage.CountIs` | filesystem/vfs/vfs.c:164 | the count returned is the size modulo 2^32, read as a signed word |
| `Storage.RenameExact` | filesystem/vfs/vfs.c:202-205 | a rename whose copy succeeds goes on to unlink the source exactly when the size is a multiple of 2^32; else it fails and both files remain |
| `Renames.RenameMoves` | filesystem/vfs/vfs.c:193-205 | a rename whose copy succeeds reports success exactly for those sizes, and has moved the file exactly if, besides, source and target differ, the target is a file, and an empty source meets no other contents |
| `Renames.RenameStays` | filesystem/vfs/vfs.c:202-205 | a file of one byte stays where it is, and the call reports failure |
| `Renames.RenameLosesEmpty` | filesystem/vfs/vfs.c:193-205 | an empty file renamed onto one of one byte is gone, and the call reports success |
| `Renames.RenameLosesItself` | filesystem/vfs/vfs.c:202-205 | an empty file renamed onto itself is gone, and the call reports success |
| `Renames.ReadyReached` | filesystem/vfs/vfs.c:133-165 | three calls after vfs_init make the state of these three |
| `Storage.WriteSound` | filesystem/vfs/vfs.c:155-165 | a write frees only the node's own live block, and if that free crosses no seam every data pointer is again a live block of its own with room for its file |
| `Storage.WriteGood` | filesystem/vfs/vfs.c:155-165 | in one region, after a kmalloc that does not make the heap grow, that free is legal |
| `Leaks.WriteReleases` | filesystem/vfs/vfs.c:155-165 | after an overwrite the old block is live no more, the file has another with room for its bytes, and heap_used has changed by the difference of the two |
| `Leaks.UnlinkReleases` | filesystem/vfs/vfs.c:175-191 | after an unlink the block of the contents is live no more, and heap_used has dropped by its size |
| `Leaks.RenameBalance` | filesystem/vfs/vfs.c:202-205 | both halves of a rename together leave no block without a node |
| `Storage.StepSound` | filesystem/vfs/vfs.c:133-229 | the same of every call: what it frees is live, and the state stays sound if the free crosses no seam |
| `Storage.StepGood` | filesystem/vfs/vfs.c:133-229 | in one region every call that does not make the heap grow frees legally and keeps state and tiling |
| `Storage.RunGood` | filesystem/vfs/vfs.c:133-229 | over any run of make, write, copy, unlink and chdir in one region without growth: every data pointer is a live block of its own with room for its file, and no free is invalid or repeated |
| `Storage.RunSound` | filesystem/vfs/vfs.c:133-229 | with any number of regions, over any run whose frees cross no seam: the same, that every pointer freed is a live block included |
| `Storage.GoodRunLegal` | filesystem/vfs/vfs.c:133-229 | a run in one region without growth is such a run |
| `Storage.InitRunGood` | filesystem/vfs/vfs.c:37-229 | RunGood from vfs_init in the heap heap_init leaves |
| `Leaks.RunBalanced` | filesystem/vfs/vfs.c:133-229 | over any run whose frees cross no seam the live blocks that belong to no node stay the same, and heap_used beyond the nodes' blocks too: nothing leaks, and nothing of others is freed |
| `Leaks.InitRunBalanced` | filesystem/vfs/vfs.c:37-41 | from vfs_init in the initial heap the live blocks are exactly those the nodes point to, and heap_used is the sum of their sizes |
| `Storage.RunKeepsFile` | filesystem/vfs/vfs.c:133-229 | over any run from a sound state whose frees cross no seam, a file holds what was last written to it as long as no call writes, copies to or unlinks it |
| `Vfs.FileSystem.NextPart` | filesystem/vfs/vfs.c:101-106 | one turn of the character loops cuts off one component |
| `Vfs.FileSystem.FindChild` | filesystem/vfs/vfs.c:30-35 | the pointer loop finds the first child with the name |
| `Vfs.FileSystem.VfsResolve` | filesystem/vfs/vfs.c:91-116 | the loops over the buffer and the chains compute the abstract resolution |
| `Vfs.FileSystem.EnsureParent` | filesystem/vfs/vfs.c:118-131 | the directory and leaf are those of the normalised path |
| `Vfs.FileSystem.AllocNode` | filesystem/vfs/vfs.c:14-22 | a node is appended exactly when the array is not full |
| `Vfs.FileSystem.MakeNode` | filesystem/vfs/vfs.c:133-153 | mkdir and create on the array are the abstract call, and keep it well formed |
| `Vfs.FileSystem.UnchainNode` | filesystem/vfs/vfs.c:180-186 | the relinking takes the node out of its parent's chain and changes nothing else |
| `Vfs.FileSystem.Climb` | filesystem/vfs/vfs.c:217-221 | the rows hold the names nearest the directory, at most 32 of them |
| `Vfs.FileSystem.VfsChdir` | filesystem/vfs/vfs.c:212-229 | climbing and printing compute the abstract chdir |
| `Vfs.FileSystem.VfsInit` | filesystem/vfs/vfs.c:37-41 | after it the array holds the root alone, nothing has contents, and the state is valid |
| `Vfs.FileSystem.DiskSound` | filesystem/vfs/vfs.c:155-200 | a valid file system denotes a sound state, so the run theorems apply to it |
| `Vfs.FileSystem.VfsWrite` | filesystem/vfs/vfs.c:155-165 | array, heap and every file's bytes become what the abstract write makes of them, with the same result; the state is valid again if the release crosses no seam |
| `Vfs.FileSystem.VfsRead` | filesystem/vfs/vfs.c:167-173 | the bytes read are the file's, cut to the limit |
| `Vfs.FileSystem.VfsUnlink` | filesystem/vfs/vfs.c:175-191 | the same of unlink: the abstract removal, the block released once, no other file's bytes changed |
| `Vfs.FileSystem.VfsCopy` | filesystem/vfs/vfs.c:193-200 | the same of copy, every way of failing included |
| `Vfs.FileSystem.VfsRename` | filesystem/vfs/vfs.c:202-205 | the same of rename |
| `Vfs.FileSystem.Perform` | filesystem/vfs/vfs.c:133-229 | one call of a run on memory is the abstract step |
| `Vfs.FileSystem.Execute` | filesystem/vfs/vfs.c:133-229 | any sequence of calls on memory whose frees cross no seam is the abstract run, and keeps the bytes in memory of every file that no call writes, copies to or unlinks |
| `Tree.ContentsKeepTree` | filesystem/vfs/vfs.c:161-163 | writing contents keeps the tree well formed and changes no path |
| `Relocation.NarrowDelta` | loader/pe.c:206-224 | adding the truncated 32-bit delta moves a word by the delta modulo 2^32, and the 64-bit one modulo 2^64 |
| `Relocation.PatchAllIs` | loader/pe.c:214-228 | patching disjoint targets one after the other moves each by the delta and keeps every other byte |
| `Relocation.RelocatedUnique` | loader/pe.c:192-231 | only one image meets the description of a relocated one |
| `Relocation.RelocationKeepsDir` | loader/pe.c:207-213 | relocation leaves a directory that says the same |
| `Relocation.RebasedIs` | loader/pe.c:192-231 | the patches of a well-formed directory amount to a relocation |
| `Relocation.RelocationComposes` | loader/pe.c:192-231 | from base p to q and on to r is from p to r, and back to p restores the image |
| `Relocation.EntryPatched` | loader/pe.c:215-227 | what the code stores for an entry of either type is the patch of its target; other types change nothing |
| `Layout.DirectoryBack` | loader/pe.c:206-230 | a directory written block by block, each a page and its fixups, asks for exactly the eight-byte words of its fixups of kind 10 and the four-byte words of those of kind 3, in order |
| `Relocation.Image.ApplyBlock` | loader/pe.c:212-228 | the loop over one block's entries patches exactly that block's targets |
| `Relocation.Image.ApplyRelocations` | loader/pe.c:195-231 | the walk terminates and relocates the image by the difference of the bases |
| `Loader.AcceptedIff` | loader/pe.c:139-190 | a file is accepted exactly when the magic numbers, the signature, the machine and the header sizes are where they should be, byte for byte |
| `Loader.RejectedFor` | loader/pe.c:139-177 | a file is rejected for the first of the seven reasons, in the order of the checks, that its bytes give |
| `Loader.MapImage` | loader/pe.c:257-272 | each byte of the image comes from the last section mapped over it, else from the copied headers, else is zero |
| `Loader.Load` | loader/pe.c:233-282 | the entry point is called exactly when the file is accepted, memory was found and the entry lies in the image; the image is then the mapped one, relocated |
| `Loader.LoadedElsewhere` | loader/pe.c:192-275 | the image loaded at b is the image loaded at a, relocated from a to b |
| `Layout.FileBack` | loader/pe.c:139-206 | every file laid out as the format says, with any stub, any number of directories and sections, is accepted with the fields written, its tables are found row by row, and its relocation directory is number 5, counted from 0 |
| `Layout.ByteOfSection` | loader/pe.c:262-272 | a byte of the image over which sections with contents in the file and addresses in the image lie comes from the last of them |
| `Layout.ByteOfHeaders` | loader/pe.c:254-260 | any other byte comes from the start of the file, as far as the headers are said to go, or is zero |
| `Layout.LoadedBack` | loader/pe.c:192-275 | at every base the image is the mapped one relocated by the distance from the preferred base over exactly that directory; if either half of its pair is zero, it is the mapped one |
| `Layout.LoadedOver` | loader/pe.c:192-275 | with the blocks of the directory known, exactly the words that their fixups ask for have moved |
| `Layout.PointersFollow` | loader/pe.c:206-221 | a word that a fixup names and that held the address of a byte at the preferred base holds the address of that byte at the base used |
| `MkPe.AlignUpIs` | tools/mkpe.py:64-65 | the result is the least multiple of the alignment that is not below the value |
| `Packing.GetField` | tools/mkpe.py:87-118 | a packed field that fits its width is read back where it starts |
| `MkPe.HeadersAre` | tools/mkpe.py:73-133 | every word the loader reads is found in the headers at the loader's offset, the directory count being 0 and the subsystem lost |
| `MkPe.HeadersRest` | tools/mkpe.py:73-133 | and so is every other word the tool writes, at the offset it writes it; the rest of the headers is zero |
| `MkPe.BuiltAccepted` | loader/pe.c:139-190 | the loader accepts every built file with the fields written, sees one section and no relocation directory; its entry lies in the image exactly when there is code |
| `MkPe.BuiltMapped` | loader/pe.c:256-275 | at every base the image is the headers, zeros, the code byte for byte at its address, and zeros to the end |
| `MkPe.CodeLeads` | tools/mkpe.py:23-61 | both patched displacements lead from the end of their instruction to their message and its terminator |
| `MkPe.LoadedGreets` | tools/mkpe.py:23-138 | the blob, put in a file and loaded at any base, is entered at its first byte and finds its messages |
| `Blob.ProgramRuns` | tools/mkpe.py:8-22 | the instructions, wherever they lie, call the second and third function of the table they are given with the addresses their displacements lead to, and return 0 with rbx, rbp and the stack as they were |
| `Blob.LoadedRuns` | tools/mkpe.py:23-138 | the file built around two texts, loaded at any base and entered where the loader enters it, hands the first text to the write of the table, the second to its writeln, and returns 0, whatever these calls leave in rax and rdi |
| `MkPe.BuildCode` | tools/mkpe.py:23-61 | the appends and the two patches give that blob |
| `MkPe.BuildPe` | tools/mkpe.py:68-138 | the writes into zeroed buffers, one of them over another, give that file |
| `Sync.MutualExclusion` | kernel/sync/sync.c:14-74 | for any number of threads and any interleaving: one occupant per section, lock words and mutex state exact, at most one holder (`Sync.CallDone` says when a thread becomes it), and the count equal to initial value plus posts minus waits and never negative |
| `Sync.CallDone` | kernel/sync/sync.c:14-74 | in every run a call that has returned has done its work, once: mutex_lock was entered without the mutex and its caller alone has it, mutex_unlock gave it up, semaphore_wait lowered the count by one in exactly one step and semaphore_post raised it so, and no other call touched either |
| `Sync.RunKeeps` | kernel/sync/sync.c:14-74 | every interleaving keeps the invariant |
| `Sync.AloneAfter` | kernel/sync/sync.c:14-18 | a step lets no second thread into an occupied section and takes the mutex only when it is free |
| `Sync.OthersKnow` | kernel/sync/sync.c:33-74 | what another thread has read inside its section is not changed under it |
| `Sync.ReleasesSoon` | kernel/sync/sync.c:14-74 | in any run, whatever the others do in between, whoever is inside a section has opened its lock by the third of its own steps |
| `Sync.LockUndisturbed` | kernel/sync/sync.c:57-68 | with the section free and nobody else moving, mutex_lock has a free mutex after four accesses and is back at its start after three, nothing changed, if it is taken |
| `Sync.UnlockUndisturbed` | kernel/sync/sync.c:70-74 | mutex_unlock then frees it in three |
| `Sync.TryUndisturbed` | kernel/sync/sync.c:20-26 | spin_trylock takes the free lock at its first access, spin_unlock opens it |
| `Sync.WaitUndisturbed` | kernel/sync/sync.c:33-44 | semaphore_wait takes one from a positive count in four accesses, and is else back at its start after three |
| `Sync.PostUndisturbed` | kernel/sync/sync.c:46-50 | semaphore_post adds one in four |
| `Sync.SpinsWhileTaken` | kernel/sync/sync.c:14-22 | a call that finds its lock taken changes nothing but its own place for as long as it is, and goes on with the first read that finds it open; spin_trylock gives up at once |
| `Keyboard.DeliveredInOrder` | drivers/keyboard/keyboard.c:28-85 | in every interleaving the delivered characters are a prefix of the accepted ones, at most 255 are in flight, and a character is dropped only when 255 were undelivered at its check |
| `Keyboard.ReadDelivers` | drivers/keyboard/keyboard.c:80-85 | whatever the interrupt handler does in between, a read begun on a ring that is not empty delivers in three accesses the oldest character and nothing else |
| `Keyboard.PushEnds` | drivers/keyboard/keyboard.c:28-33 | whatever the main loop does in between, a push that has ended has made its character the last one readable, in three accesses, or dropped it after one, with 255 unread |
| `Keyboard.FullIff` | drivers/keyboard/keyboard.c:29-30 | the next slot is the tail's exactly when 255 characters are in flight |
| `Keyboard.Ring.KbdPush` | drivers/keyboard/keyboard.c:28-33 | uninterrupted, a push appends the character unless 255 are waiting |
| `Keyboard.Ring.HasChar` | drivers/keyboard/keyboard.c:76-78 | true exactly when something is waiting |
| `Keyboard.Ring.TryRead` | drivers/keyboard/keyboard.c:80-85 | uninterrupted, a read takes the oldest character, or reports that there is none |
| `Line.Turn` | drivers/framebuffer/framebuffer.c:220-222 | one turn takes a step along the dominant axis and stays within half a pixel of the ideal line |
| `Line.LastTurn` | drivers/framebuffer/framebuffer.c:217-223 | the loop leaves after max(abs dx, abs dy) turns and not before |
| `LineWords.LineExact` | drivers/framebuffer/framebuffer.c:211-223 | no 32-bit word of the loop overflows exactly if the extents meet the condition stated |
| `LineWords.DevRange` | drivers/framebuffer/framebuffer.c:217-223 | all deviations from the ideal line are multiples of the greatest common divisor of the extents between two bounds |
| `LineWords.DevEnds` | drivers/framebuffer/framebuffer.c:217-223 | both bounds are met on the way |
| `LineWords.ErrIsDev` | drivers/framebuffer/framebuffer.c:216-222 | the error term is that deviation, shifted and signed by the octant |
| `LineWords.ShortFits` | drivers/framebuffer/framebuffer.c:211-223 | every line of which three times the longer extent stays below 2^31 plus twice the shorter, and at most 2^32, is drawn without overflow |
| `LineWords.LevelExact` | drivers/framebuffer/framebuffer.c:211-223 | a level line overflows exactly from 2^30 pixels on |
| `LineWords.DiagonalExact` | drivers/framebuffer/framebuffer.c:211-223 | a diagonal overflows exactly when its extent does |
| `Line.InBox` | drivers/framebuffer/framebuffer.c:217-223 | every point lies in the box of the endpoints |
| `Line.LineOf` | drivers/framebuffer/framebuffer.c:211-224 | the points run from the first endpoint to the second, one per dominant step, each within half a pixel |
| `Line.Framebuffer.PutPixel` | drivers/framebuffer/framebuffer.c:175-178 | exactly the named pixel changes, if it is on the screen |
| `Line.Framebuffer.DrawLine` | drivers/framebuffer/framebuffer.c:211-224 | the loop ends, and exactly the visible points of such a line change |
| `Windows.CreateIs` | window_manager/wm.c:33-55 | a window is made exactly when the limit allows it and a slot is free; it takes the first free slot, with the rectangle asked for also as its restore rectangle, and comes up focused |
| `Windows.FocusKeeps` | window_manager/wm.c:64-72 | focusing keeps the invariant, and focusing a window makes flag and pointer agree |
| `Windows.FocusIs` | window_manager/wm.c:64-72 | focusing a window sets its flag, clears all others and shows it if it was minimised, and changes nothing else; the null window clears the flags only |
| `Windows.RestoreOrFocusIs` | window_manager/wm.c:74-82 | a window with the flag that is not minimised is minimised where it is, and nothing is focused; any other comes up focused, shown and drawn last |
| `Windows.StepKeeps` | window_manager/wm.c:33-268 | every call keeps the invariant, and every call but focusing nothing keeps flag and pointer in agreement |
| `Windows.AgreementBroken` | window_manager/wm.c:64-72 | the agreement is broken exactly by focusing nothing while the focused window is shown |
| `Windows.AtIsLastDrawn` | window_manager/wm.c:171-211 | the hit test finds the last window drawn over the point |
| `Windows.PaintedIs` | window_manager/wm.c:171-179 | a repaint draws exactly the shown windows, the focused one last, and each once if flag and pointer agree |
| `Windows.RunHits` | window_manager/wm.c:33-268 | over any run: hit test agrees with paint order, the count is exact, a shown window with the flag is the focused pointer, and without a null focus the two say the same |
| `Windows.RunLive` | window_manager/wm.c:33-268 | over any run that focuses only existing windows the focused pointer never names a closed one |
| `Windows.FocusRaises` | window_manager/wm.c:64-211 | a focused active window is hit at every point of its rectangle |
| `Windows.DestroyUncovers` | window_manager/wm.c:57-62 | destroying a window takes it out of the picture and leaves the order and the state of the others; it leaves the count, and the pointer if that named it |
| `Windows.HideAndShow` | window_manager/wm.c:74-82 | two presses of the taskbar button restore the desk exactly when the window was not maximised |
| `Windows.ZoomTwice` | window_manager/wm.c:96-111 | two zooms restore a normal window's rectangle; after hiding a maximised one it is lost |
| `Windows.ClickIs` | window_manager/wm.c:241-268 | in pixels: in the 32-pixel bar of the window hit the rightmost 46 close it, the next 46 take a normal window to the full screen above the taskbar and a maximised one back to its old rectangle, the next 46 minimise it; elsewhere it is only focused; no other window changes but for its flag |
| `Windows.WindowManager.SetFocus` | window_manager/wm.c:64-72 | the loop and the pointer write are the abstract focus |
| `Windows.WindowManager.CreateWindow` | window_manager/wm.c:33-55 | the slot search and the writes are the abstract creation |
| `Windows.WindowManager.DestroyWindow` | window_manager/wm.c:57-62 | the writes are the abstract destruction |
| `Windows.WindowManager.RestoreOrFocusWindow` | window_manager/wm.c:74-82 | the writes are the abstract call |
| `Windows.WindowManager.Render` | window_manager/wm.c:171-179 | the windows drawn, in order, are the abstract paint order |
| `Windows.WindowManager.WindowAt` | window_manager/wm.c:198-211 | the descending search returns the last window drawn over the point |
| `Windows.WindowManager.Nth` | window_manager/wm.c:188-196 | the window returned is active with exactly that many active ones before it; None exactly when there are not so many |
| `Windows.WindowManager.Press` | window_manager/wm.c:241-268 | the branches are the abstract press, and a drag starts exactly on the title bar beside the buttons |

## Left out

- `Pmm.Allocator.Init`: requires that no map entry wraps around 2^64 and that the kernel ends at or above 1 MiB, as its link address does; boot structures are assumed well formed.
- `Vmm.Mmu.MapPage`: requires that its accesses reach their frames, `Reach.MapReachExact` saying when they do; what a fault then does is not modelled, nor are `invlpg`, cached translations, the CR3 read, 1 GiB pages and no-execute bits, and page-table words are numbers taken apart by division instead of masks.
- `KernelHeap.Heap.Kfree`: a pointer that names no block, before which memory holds the magic number and no free flag, is not modelled.
- `KernelHeap.Heap.Krealloc`: requires a live block and a size whose rounding does not wrap, beyond which the copy would overrun the block (`Blocks.MallocHolds`); a stale pointer is not modelled.
- `KernelHeap.Heap.Kcalloc`: requires that rounding the product, taken modulo 2^64, does not wrap again, beyond which the memset would overrun the block (`Blocks.MallocHolds`).
- `Blocks.RunSafe`: the invariant says nothing after a free that crosses a seam, `Blocks.FreeExact` saying which these are and `HeapRuns.FreeAcrossRegions` what then can happen.
- `Regions.RunLaid`: krealloc is not a step of its runs; it is an allocation and a free, which are.
- Corruption panic and log calls: the panic appears as a flag proved false, log calls not at all.
- `Vfs.FileSystem.VfsResolve`: requires the joined path to fit the 256-byte buffer; an absolute path is cut by the code, and so it is here.
- `Vfs.FileSystem.MakeNode`: requires a last component of at most 127 characters, since the code copies it unchecked; mkdir and create share the method, with the kind as a parameter.
- `Vfs.FileSystem.VfsChdir`: requires the rebuilt string to fit its buffer and each name its row.
- `Vfs.FileSystem.VfsWrite`: requires a buffer of at most 2^64 - 17 bytes, as any buffer in memory is; reading an overlong size as a negative count is modelled.
- `Vfs.FileSystem.VfsRename`: requires that a free inside its copy crosses no seam if the copy returns 0, as it does for an empty file, which frees nothing, and for one whose size is a multiple of 2^32.
- `Storage.RunGood`: rename and read are not steps of a run; a rename is a copy and an unlink, which are.
- `Relocation.Image.ApplyRelocations`: requires a directory inside the image whose blocks lie inside it and whose targets are in the image, apart from each other and from the directory; other directories are not modelled.
- `Loader.Load`: requires the headers, sections and directories a file announces to be in the file; the memory for the image is a parameter, and the call of the entry point and its result are left out, but for the builder's own program (`Blob.LoadedRuns`).
- `MkPe.AlignUpIs`: the bit mask of align_up is modelled as the division it is for a power of two.
- `MkPe.BuildPe`: requires sizes that fit the 32-bit fields, as the packing function does; writing the files out is left out.
- `Sync.MutualExclusion`: a mutex is unlocked only by its holder, and the semaphore's count is not bounded by 32 bits; memory is sequentially consistent, and fairness is not claimed: a waiting thread may wait for ever.
- `Line.Framebuffer.DrawLine`: coordinates are unbounded numbers, `LineWords.LineExact` saying for which lines the 32-bit ones of the code are the same; pitch, double buffering and colours as bytes are left out.
- `Windows.RunHits`: titles, colours, callbacks, wm_move, wm_resize and always-on-top are left out, and rectangle sums do not wrap.
- Drag and edge snap in wm_handle_mouse: a drag target can be minimised during the drag and then snapped, which breaks the focus invariant; a press that starts a drag is modelled up to its start.
- vfs_list, vfs_root and the seed directories and file of vfs_init: single reads, or runs of calls already modelled.
- kernel/core/sched.c and the scancode translation in front of the keyboard ring: not part of this model.
- The other drivers, shell, desktop, network and package stubs: hardware plumbing or user interface.
