# A verified model of NexusKernel's memory, process, file-system and console code

NexusKernel is a small 32-bit x86 kernel written in C. This project models the parts of it that manage
state in place and proves what they keep, undo and lose, for every input and over whole runs:

- the kernel heap (`kmalloc`, `kfree`, `krealloc`, `kmalloc_aligned`), down to the little-endian block headers
  threaded through the 4 MB heap array;
- the physical frame bitmap and its construction from the multiboot memory map;
- two-level page tables and address spaces whose kernel slots are shared with the kernel directory;
- the process table with `process_create`'s rollback, and the scheduler's intrusive ready queue;
- the RAM file system (files whose bytes live in heap blocks, directories as sibling lists) and path resolution;
- the C string routines these use, and the VGA console with its number printing;
- the boot order that puts the file system and the processes on one heap.

Each component has two layers. A specification layer of datatypes, functions and lemmas says what the operation
means (`HeapBlocks`, `Frames`, `MemoryMap`, `Paging`, `FileTree`, `Numerals`, `Console`, ...). An imperative layer of
classes follows the C code statement by statement (`KHeap`, `Pmm`, `Vmm`, `ProcessManager`, `Scheduler`,
`FileSystem`, `Vfs`, `Screen`) and each of its methods is proved to take the abstract state to the value of the
specification. `u32` arithmetic wraps where the C code's does. Addresses are numbers; structures other than heap
headers and file bytes are maps from an address to a record.

`dafny verify dfyconfig.toml` checks everything.

## Main results

- **Heap.** A heap is a tiling of the array by blocks without two adjacent free ones. Such a heap is determined by
  its live blocks alone (`HeapBlocks.Canonical`), so `kfree` undoes `kmalloc` exactly, any two legal runs with the
  same live blocks end in the same heap, and freeing everything in any order gives back the initial block.
  `KHeap`'s byte-level `Kmalloc`, `Kfree` and `Krealloc` refine these functions and leave the payload bytes of every
  other live block alone.
- **Frames.** After `pmm_init` the free frames are exactly the whole frames of the available regions from 1 MB on if
  and only if every region that does not survive the truncation to 32 bits is made up for by others; which region
  survives is decided exactly, over all 64-bit bounds. The used-counter is exact if and only if the surplus decrements
  are a multiple of 2^32, which for fewer than 32767 map entries means that the available regions are disjoint. No
  frame is handed out twice, in any run of allocations, releases and reservations. Address 0 means failure exactly
  when frame 0 is reserved.
- **Paging.** Over every run of create, map, unmap and destroy, each table is private to one directory or an inherited
  kernel table, frames are conserved, kernel mappings only grow, and memory leaks exactly when a destroyed directory
  had its own table in a slot that the kernel filled later.
- **Processes.** `process_create` either registers a fully described process or leaves heap, frames and tables as they
  were, and which of the two is decided by a stated condition.
- **Scheduler.** `scheduler_add` keeps the queue a list if and only if the process is not already its tail, and
  appends if and only if it is not queued at all. Every run of calls keeps a well-formed queue of READY processes one
  as long as callers add READY processes that are not queued. A run of ticks and yields only drains the queue.
- **Files.** From the root that `ramfs_init` makes, every run of creations, unlinks and writes keeps nodes, sibling
  lists, files and heap blocks consistent, whatever the rest of the kernel allocates and frees beside it. Creating a
  file, writing it any number of times and unlinking it restores nodes, files and the heap exactly. Reading back a
  write returns it, and so do creating a file, writing it and reading it in turn, if and only if the heap has room for
  node, record and buffer. No file's buffer is ever reallocated more than sixteen times.
- **Directories.** Children are listed from the youngest to the oldest, no directory is its own descendant, and with
  names of at most 127 bytes no directory lists a name twice. The printed path of a node below the root resolves to it
  if and only if its names can appear in a path and the path fits the 1024-byte buffer.
- **Boot.** Given an initialised kernel directory, which `kernel_main` never makes, its start-up leaves the file system,
  the root mount, the process table and the ready queue well-formed together. Every run of file, process and scheduler
  requests keeps them so: no file-system call ever removes the mounted root, and paths still resolve at the end. The
  queue keeps its READY processes, where the scheduler itself is not called, if and only if no queued process is
  terminated.
- **Console.** The 80x25 window is the last 25 rows of an unbounded terminal whose scrolled-off rows never change.
  Printed numbers read back, except for the smallest `int32_t`.

## Where a promise does not hold

The code is modelled as it is. These promises fail, and each member named states exactly when the code meets them.
Inputs that reach the failing branch are in `HeapBlocks.OversizeGranted`, `HeapRuns.WrappedPaddingEscapes`,
`MemoryMap.OverlapMiscounts`, `MemoryMap.HighRegionReleasesLowFrames`, `MemoryMap.FullRegionReleasesNothing`,
`Frames.ZeroHandedOut`, `Paging.WideFlagsMisname`, `PagingRuns.OvertakingLeaks`, `ProcessTable.ProcessManager.TerminateTwice`,
`ReadyQueue.AddTailBreaks`, `ReadyQueue.BlockingStrands`, `FileTree.LongNamesCollide` and
`FileContents.WrappedWriteEscapes`.

| promise | exact condition | member |
|---|---|---|
| a granted block covers the request | size at most 2^32 - 8 | `HeapBlocks.GrantCoversRequest` |
| an aligned range lies in its block | alignment not 0, size + alignment at most 2^32 - 8 | `HeapRuns.AlignedRangeInBlock` |
| the frame counter is exact | regions disjoint (under 32767 entries; surplus a multiple of 2^32 in general) | `MemoryMap.CounterExactIff` |
| a region releases its whole frames | `Fits32`: its 64-bit bounds survive truncation | `MemoryMap.WholeFramesIff` |
| the free frames are the usable ones | `MadeUp`: regions that do not survive are made up for | `MemoryMap.FreeIsUsableIff` |
| frame address 0 means out of memory | frame 0 is not free (or fewer than 8 frames) | `Frames.ZeroMeansFailure` |
| a directory word names its table | flags below 0x1000 | `Paging.DirEntryIff` |
| destroying a space frees all its tables | no own table was overtaken by the kernel | `PagingRuns.DestroyLeaks` |
| terminating removes only that process | its pid's slot holds it or nothing | `ProcessTable.ProcessManager.Terminate` |
| adding a process queues it | it is not queued already | `ReadyQueue.AddAppendsIff` |
| blocking keeps the queue READY | `StaysReady` of the queue, current and reason | `ReadyQueue.Scheduler.BlockCurrent` |
| terminating keeps the queue READY | the process is not queued | `Kernel.TerminateQueued` |
| a new child has a unique name | no sibling has the 127-byte truncated name | `TreeHistory.UniqueInsertIff` |
| a node's printed path resolves to it | plain names, at most 1023 bytes | `Paths.ResolvesPrintedIff` |
| a created file can be unlinked by name | name shorter than 128 bytes | `RamFs.FileSystem.CreateWriteUnlink` |
| an accepted write stays in its buffer | offset + size does not wrap | `FileContents.AcceptedInBoundsIff` |
| the path buffer is terminated | path under 1023 bytes, or a stale 0 on the stack | `Paths.BufferTerminatedIff` |
| a printed integer reads back | it is not -2^31 | `Numerals.IntTextReadsIff` |

The repository's README promises fair round-robin scheduling (README.md:64). The code never changes the current
process, so no switched-in process is ever queued again; `ReadyQueue.SwitchesDrain` states this, and the model
follows the code.

## Model

| member | source | states |
|---|---|---|
| `HeapBlocks.AllocAtValid` | kernel/memory/kheap.c:28-44 | taking a block (split or whole) keeps the heap a coalesced tiling |
| `HeapBlocks.AllocAtLive` | kernel/memory/kheap.c:63-82 | an allocation adds exactly the granted block to the live ones, and it was not live |
| `HeapBlocks.FreeAtValid` | kernel/memory/kheap.c:46-61 | freeing with both-sided coalescing keeps the heap a tiling with no two adjacent free blocks |
| `HeapBlocks.FreeAtLive` | kernel/memory/kheap.c:96-104 | a release removes exactly the freed block from the live ones |
| `HeapBlocks.Canonical` | kernel/memory/kheap.c:46-61 | two valid heaps with the same live blocks are equal: eager coalescing makes the layout canonical |
| `HeapBlocks.InitialValid` | kernel/memory/kheap.c:16-26 | the initial single free block is a valid heap with nothing live |
| `HeapBlocks.Round8Law` | kernel/memory/kheap.c:68-68 | rounding to 8 is exact up to 2^32 - 8 and wraps to 0 above |
| `HeapBlocks.MallocLaw` | kernel/memory/kheap.c:63-82 | fails if and only if size is 0 or no free block is large enough, then changing nothing; otherwise hands out a fresh live block of at least the rounded size and keeps every other live block |
| `HeapBlocks.MallocFirst` | kernel/memory/kheap.c:63-82 | up to 2^32 - 8 bytes: the lowest free block that holds the size rounded up to 8 is taken, the payload starts 16 bytes into it, and it is cut if and only if 32 bytes or more are left over |
| `HeapBlocks.FreeLaw` | kernel/memory/kheap.c:96-104 | freeing removes that live block only and keeps the heap valid |
| `HeapBlocks.FreeUndoesMalloc` | kernel/memory/kheap.c:63-104 | freeing what was just allocated restores the heap exactly |
| `HeapBlocks.GrantCoversRequest` | kernel/memory/kheap.c:63-82 | the granted block is as large as requested if and only if size is at most 2^32 - 8 |
| `HeapBlocks.CopyFitsLaw` | kernel/memory/kheap.c:120-124 | the copy of a moving reallocation fits the new block up to 2^32 - 8; above, if and only if nothing is moved or the first free block is too small to split and holds the old one |
| `HeapBlocks.OversizeGranted` | kernel/memory/kheap.c:63-82 | a request of 2^32 - 1 bytes on the initial heap is granted a smaller block |
| `HeapBlocks.FirstFit` | kernel/memory/kheap.c:70-79 | the first free block that is large enough, and none before it |
| `HeapBlocks.LiveInHeap` | kernel/memory/kheap.c:12-26 | payloads are 8-aligned and blocks end inside the heap area |
| `HeapRuns.ReallocMoves` | kernel/memory/kheap.c:116-127 | a moving reallocation exchanges the old live block for a new one at another address |
| `HeapRuns.ReallocLaw` | kernel/memory/kheap.c:106-127 | without an old block it is kmalloc; failure changes nothing, and a block that must move fails if and only if kmalloc does; size 0 frees; a block already large enough is returned in place |
| `HeapRuns.StepValid` | kernel/memory/kheap.c:63-127 | every heap operation keeps the heap valid |
| `HeapRuns.RunValid` | kernel/memory/kheap.c:63-127 | every legal run of operations keeps the heap valid |
| `HeapRuns.RunsAreCanonical` | kernel/memory/kheap.c:63-127 | two legal runs from boot that leave the same live blocks leave the same heap |
| `HeapRuns.FreeAllRestoresInitial` | kernel/memory/kheap.c:96-104 | freeing all live blocks, in any order, is legal and restores the initial heap |
| `HeapRuns.LivePayloadsDisjoint` | kernel/memory/kheap.c:63-127 | after every legal run live blocks do not overlap, are 8-aligned and lie in the heap |
| `HeapRuns.AlignUpMultiple` | kernel/memory/kheap.c:84-94 | for a power of two the aligned address is a multiple of it |
| `HeapRuns.AlignUpBounds` | kernel/memory/kheap.c:84-94 | the aligned address lies within one alignment above the raw one |
| `HeapRuns.AlignedRangeInBlock` | kernel/memory/kheap.c:84-94 | for every size and alignment, the aligned range lies in the granted block if and only if the alignment is not 0 and size + alignment is at most 2^32 - 8 |
| `HeapRuns.WrappedPaddingEscapes` | kernel/memory/kheap.c:84-94 | 2^32 - 1 bytes aligned to 16 are granted a block that does not hold them |
| `HeapMemory.PutLaw` | kernel/include/memory/kheap.h:9-14 | a stored header word reads back and no other byte changes |
| `HeapMemory.RewriteRep` | kernel/memory/kheap.c:28-61 | rewriting a stretch of headers and the next block's back link represents the spliced block list |
| `HeapMemory.SplitRep` | kernel/memory/kheap.c:28-44 | the stores of a split represent the two halves, doubly linked |
| `HeapMemory.FlagRep` | kernel/memory/kheap.c:74-102 | storing the free flag represents the block list with that flag |
| `HeapMemory.MergeRep` | kernel/memory/kheap.c:46-61 | the stores of a merge represent the joined block |
| `HeapMemory.CoalesceIsFreeAt` | kernel/memory/kheap.c:46-61 | joining right and then left equals replacing the whole free stretch by one block |
| `HeapMemory.HeadersKeepPayloads` | kernel/memory/kheap.c:28-61 | stores confined to headers and free space keep every live payload |
| `HeapMemory.SplitKeeps` | kernel/memory/kheap.c:28-44 | a split keeps every live payload byte |
| `HeapMemory.MergeKeeps` | kernel/memory/kheap.c:46-61 | a merge keeps every live payload byte |
| `HeapMemory.FlagKeeps` | kernel/memory/kheap.c:74-102 | setting a free flag keeps every live payload byte |
| `HeapMemory.PayloadWriteRep` | kernel/lib/string.c:12-19 | writing inside a payload keeps the block list |
| `KernelHeap.KHeap.Init` | kernel/memory/kheap.c:16-26 | memory represents one free block spanning the area |
| `KernelHeap.KHeap.SplitBlock` | kernel/memory/kheap.c:28-44 | replaces the block by its halves if and only if the remainder is worth a block; live payloads kept |
| `KernelHeap.KHeap.CoalesceBlock` | kernel/memory/kheap.c:46-61 | merges with free neighbours on both sides; live blocks and payloads kept |
| `KernelHeap.KHeap.Kmalloc` | kernel/memory/kheap.c:63-82 | the linked list in memory becomes the list of Malloc, the result its address (NULL before initialisation), and every live payload byte is kept |
| `KernelHeap.KHeap.FindFit` | kernel/memory/kheap.c:70-79 | the list walk finds the first fitting block |
| `KernelHeap.KHeap.Kfree` | kernel/memory/kheap.c:96-104 | the list becomes that of Free, the payloads of the remaining live blocks are kept, NULL changes nothing |
| `KernelHeap.KHeap.Copy` | kernel/lib/string.c:12-19 | copies the bytes of a disjoint range and changes no other byte |
| `KernelHeap.KHeap.Krealloc` | kernel/memory/kheap.c:106-127 | the list becomes that of Realloc; a moved block carries its old bytes over; every other live payload is kept |
| `KernelHeap.KHeap.KmallocAligned` | kernel/memory/kheap.c:84-94 | allocates size + alignment in 32 bits and returns the raw address rounded up |
| `Frames.BitOrder` | kernel/memory/pmm.c:12-20 | frame 8i + j is bit j, from the low end, of byte i: setting and clearing it change that bit alone |
| `Frames.SetBitFrees` | kernel/memory/pmm.c:12-15 | setting a bit removes exactly that frame from the free set |
| `Frames.ClearBitFrees` | kernel/memory/pmm.c:17-20 | clearing a bit adds exactly that frame to the free set |
| `Frames.BitmapDetermined` | kernel/memory/pmm.c:8-25 | the free set determines every byte of the bitmap |
| `Frames.UsedCount` | kernel/memory/pmm.c:146-154 | the used frames number total minus free |
| `Frames.LowestUnique` | kernel/memory/pmm.c:27-38 | the lowest free frame of a fully scanned byte is unique and exists when allocation succeeds |
| `Frames.ZeroMeansFailure` | kernel/memory/pmm.c:106-116 | a returned 0 left the pool unchanged if and only if frame 0 was not free or there are under 8 frames |
| `Frames.ZeroHandedOut` | kernel/memory/pmm.c:106-116 | while frame 0 is free it is handed out under the address that means failure |
| `Frames.FreeUndoesAlloc` | kernel/memory/pmm.c:106-125 | freeing the frame just allocated restores the pool |
| `Frames.OutstandingDistinct` | kernel/memory/pmm.c:106-134 | in every run no frame is handed out while it is outstanding, and outstanding frames are never free |
| `Frames.ZeroStaysReserved` | kernel/memory/pmm.c:94-134 | as long as only frames above 1 MB are freed, frame 0 stays reserved and 0 means failure |
| `MemoryMap.ReleasedIff` | kernel/memory/pmm.c:77-92 | a frame is released if and only if some available region covers it |
| `MemoryMap.ExcessZeroIff` | kernel/memory/pmm.c:86-89 | the counter is decremented once per frame if and only if the available regions are disjoint |
| `MemoryMap.CounterExactIff` | kernel/memory/pmm.c:74-100 | after the reservation the 32-bit counter equals total minus free if and only if the surplus decrements are a multiple of 2^32; with fewer than 32767 entries, if and only if the regions are disjoint |
| `MemoryMap.OverlapMiscounts` | kernel/memory/pmm.c:77-92 | two equal entries make the counter wrong |
| `MemoryMap.WholeFramesIff` | kernel/memory/pmm.c:80-84 | over every 64-bit region, the clearing loop visits exactly the whole frames below total if and only if the bounds survive truncation to 32 bits |
| `MemoryMap.FreeIsUsable` | kernel/memory/pmm.c:74-100 | if all available regions survive truncation, a frame is left free if and only if it lies in [256, total) and wholly inside an available region |
| `MemoryMap.FreeIsUsableIff` | kernel/memory/pmm.c:74-100 | over every map, the frames left free from 1 MB on are exactly the whole frames of the available regions if and only if the regions that do not survive truncation are made up for by others |
| `MemoryMap.HighRegionReleasesLowFrames` | kernel/memory/pmm.c:80-84 | input for the failing side: a region above 4 GB releases low frames that are not part of it |
| `MemoryMap.FullRegionReleasesNothing` | kernel/memory/pmm.c:63-92 | input for the failing side: a region ending exactly at 4 GB releases nothing and counts as ending at 0 |
| `PhysicalMemory.Pmm.BitmapSet` | kernel/memory/pmm.c:12-15 | the byte-wise update sets that bit only |
| `PhysicalMemory.Pmm.BitmapClear` | kernel/memory/pmm.c:17-20 | the byte-wise update clears that bit only |
| `PhysicalMemory.Pmm.FindFree` | kernel/memory/pmm.c:27-38 | the frame found is free and no free frame is lower; nothing is found if and only if every free frame lies behind the last whole byte of the bitmap |
| `PhysicalMemory.Pmm.FindMemEnd` | kernel/memory/pmm.c:59-68 | an upper bound of all region ends, attained; 0 for an empty map |
| `PhysicalMemory.Pmm.ReleaseRegion` | kernel/memory/pmm.c:78-90 | adds one region's frames and counts one decrement per frame |
| `PhysicalMemory.Pmm.ReleaseMap` | kernel/memory/pmm.c:77-92 | frees the union of the available regions |
| `PhysicalMemory.Pmm.ReserveLow` | kernel/memory/pmm.c:94-100 | takes the first 256 frames out of the free set, counting each once |
| `PhysicalMemory.Pmm.Init` | kernel/memory/pmm.c:40-104 | total is the highest region end, cut to 32 bits, in frames, at most 131072; total, free set and counter for both boot paths; the free set is the whole frames of the available regions in [256, total) if and only if regions that do not survive truncation are made up for, so always if all survive; the allocator invariant holds if and only if the surplus decrements are a multiple of 2^32, that is for fewer than 32767 entries if and only if the regions are disjoint |
| `PhysicalMemory.Pmm.InitThenAlloc` | kernel/memory/pmm.c:27-116 | after start-up the first allocation returns the lowest usable frame from 1 MB on, and 0 if and only if none lies in a whole byte of the bitmap |
| `PhysicalMemory.Pmm.AllocFrame` | kernel/memory/pmm.c:106-116 | takes the lowest free frame and returns its address, or 0 with no change if none lies in a whole byte of the bitmap; no other frame changes; counter exact |
| `PhysicalMemory.Pmm.FreeFrame` | kernel/memory/pmm.c:118-125 | the free frames gain exactly the addressed one if it is in range, otherwise no change |
| `PhysicalMemory.Pmm.MarkUsed` | kernel/memory/pmm.c:127-134 | the free frames lose exactly the addressed one |
| `Paging.DirEntryLaw` | kernel/memory/vmm.c:24-24 | with flags below 0x1000 a directory word is present and writable, keeps every flag bit and names its table |
| `Paging.DirEntryIff` | kernel/memory/vmm.c:24-24 | a directory word names its table, for every frame that can be handed out, if and only if the unmasked flags are below 0x1000 |
| `Paging.WideFlagsMisname` | kernel/memory/vmm.c:24-24 | input for the failing side: flag bit 12 for the frame at 1 MB stores a word that names the frame behind |
| `Paging.PageEntryLaw` | kernel/memory/vmm.c:117-117 | a table word is present, holds the frame base and the low 12 flag bits |
| `Paging.AllocLaw` | kernel/memory/vmm.c:20-22 | a frame for a table or directory is fresh and nonzero, or the pool is exhausted |
| `Paging.AddTableInv` | kernel/memory/vmm.c:14-31 | adding a table keeps tables private or inherited |
| `Paging.EnsureTableWalk` | kernel/memory/vmm.c:14-31 | adding a table changes no translation in any directory and succeeds if and only if it exists or a frame is free |
| `Paging.StoreWordWalk` | kernel/memory/vmm.c:115-131 | a stored word is seen at that page by exactly the directories sharing the table |
| `Paging.MapPageWalk` | kernel/memory/vmm.c:110-118 | the page is mapped in that directory and in those sharing its table, every other translation in every directory is unchanged, and a full pool changes nothing |
| `Paging.UnmapPageWalk` | kernel/memory/vmm.c:120-132 | the page is unmapped for the directories sharing the table, nothing else changes |
| `Paging.CreateSpaceInv` | kernel/memory/vmm.c:70-87 | a new space keeps the ownership invariant |
| `Paging.CreateSpaceWalk` | kernel/memory/vmm.c:70-87 | a new space translates as the kernel directory, all others as before |
| `Paging.FreedIsPrivate` | kernel/memory/vmm.c:94-98 | no other directory names a table that destruction frees |
| `Paging.DestroyInv` | kernel/memory/vmm.c:89-102 | destruction keeps the ownership invariant |
| `Paging.DestroyWalk` | kernel/memory/vmm.c:89-102 | destruction changes no translation in any other directory |
| `PagingRuns.TranslateLaw` | kernel/memory/vmm.c:134-147 | returns frame base plus offset if mapped and 0 otherwise; a mapped 0 happens only for physical address 0 |
| `PagingRuns.MapThenTranslate` | kernel/memory/vmm.c:110-147 | after mapping, the virtual address translates to the frame plus its offset |
| `PagingRuns.DestroyUndoesCreate` | kernel/memory/vmm.c:70-102 | destroying a fresh space restores directories, tables and frames exactly |
| `PagingRuns.DestroyHolds` | kernel/memory/vmm.c:89-102 | destruction conserves frames: free plus held is unchanged |
| `PagingRuns.DestroyLeaks` | kernel/memory/vmm.c:89-102 | destruction leaks exactly the own tables in slots the kernel filled with another table since |
| `PagingRuns.StepLaw` | kernel/memory/vmm.c:70-132 | each operation keeps the invariant, conserves frames, only grows the kernel directory, and leaks nothing if and only if it is clean |
| `PagingRuns.RunLaw` | kernel/memory/vmm.c:70-132 | the same over every run: nothing leaks if and only if every destroy in it was clean |
| `PagingRuns.OvertakingLeaks` | kernel/memory/vmm.c:70-118 | from every state with three frames to spare: create, map, map the same empty slot in the kernel directory, destroy is legal and leaks a table |
| `VirtualMemory.Vmm.GetOrCreateTable` | kernel/memory/vmm.c:14-31 | a present slot gives its table and changes nothing; otherwise NULL if and only if no frame can be had, else a zeroed table at a new address, entered in both arrays of the directory with the flags, present and writable; refines EnsureTable |
| `VirtualMemory.Vmm.MapPage` | kernel/memory/vmm.c:110-118 | the word for the address, ten bits of slot and ten of index, names the frame and carries the low flags and the present bit, unless the slot was empty and no frame could be had; refines the map step |
| `VirtualMemory.Vmm.UnmapPage` | kernel/memory/vmm.c:120-132 | exactly the word for the address becomes 0, or nothing changes if there is no table; refines the unmap step |
| `VirtualMemory.Vmm.GetPhysical` | kernel/memory/vmm.c:134-147 | the two-level walk in plain arithmetic: 0 where a word is not present, otherwise frame address plus page offset; equals the translation of the model |
| `VirtualMemory.Vmm.CreateAddressSpace` | kernel/memory/vmm.c:70-87 | refines the create step and returns a directory not in use, or NULL |
| `VirtualMemory.Vmm.CopyKernelSlots` | kernel/memory/vmm.c:80-84 | the loop copies exactly the present kernel entries |
| `VirtualMemory.Vmm.DestroyAddressSpace` | kernel/memory/vmm.c:89-102 | refines the destroy step; NULL and the kernel directory change nothing |
| `VirtualMemory.Vmm.FreeTables` | kernel/memory/vmm.c:93-99 | the loop returns exactly the private tables' frames to the pool |
| `VirtualMemory.Vmm.Init` | kernel/memory/vmm.c:33-50 | the kernel directory maps the first 4 MB to themselves, writable, and nothing else, and only its first slot is filled; nothing at all is mapped if no frame is left for the table |
| `ProcessTable.ProcessManager.GetNextPid` | kernel/process/process.c:110-125 | the first empty slot from the cursor round to it, never 0; -1 if and only if all are taken |
| `ProcessTable.ProcessManager.Acquire` | kernel/process/process.c:34-56 | obtains structure, space and stack, or rolls back so that heap and frames are as before; succeeds if and only if all three are available |
| `ProcessTable.ProcessManager.Create` | kernel/process/process.c:28-81 | all or nothing, success decided by an empty slot, 168 bytes, a frame and 8192 bytes in turn. On success the process stands in the slot of the first free pid, is READY, starts at its entry on top of its own new stack in its own new directory with interrupts on and kernel segments, and is a child of current; on failure every table, heap block and bitmap byte is as before (only the pid cursor may have moved) |
| `ProcessTable.Described` | kernel/process/process.c:28-81 | a registration, field by field: name cut to 63 bytes, priority, registers, parent, and two blocks that were not live before |
| `ProcessTable.ProcessManager.Init` | kernel/process/process.c:12-26 | the idle process, renumbered to pid 0 but kept in slot 1, or nothing if memory is short |
| `ProcessTable.ProcessManager.Terminate` | kernel/process/process.c:83-96 | marks the process and clears its pid's slot; another process drops out of the table if and only if that slot held it |
| `ProcessTable.ProcessManager.TerminateTwice` | kernel/process/process.c:28-125 | with a full table, terminating a process, creating another and terminating the first again leaves the new one READY and in no slot |
| `ProcessTable.PidsDistinct` | kernel/process/process.c:28-81 | two occupied slots hold different processes with different pids |
| `ReadyQueue.HeldUnique` | kernel/process/scheduler.c:7-22 | links and head determine the queue |
| `ReadyQueue.AddAppends` | kernel/process/scheduler.c:24-38 | adding a process that is not queued appends it |
| `ReadyQueue.AddTailBreaks` | kernel/process/scheduler.c:24-38 | adding the tail again closes a cycle: no list is left |
| `ReadyQueue.AddMemberTruncates` | kernel/process/scheduler.c:24-38 | adding another member again drops every process behind it |
| `ReadyQueue.AddHoldsIff` | kernel/process/scheduler.c:24-38 | adding leaves a list if and only if the process is not the tail |
| `ReadyQueue.AddAppendsIff` | kernel/process/scheduler.c:24-38 | the queue is extended if and only if the process was not queued |
| `ReadyQueue.UnlinkHolds` | kernel/process/scheduler.c:52-62 | unlinking a member leaves the list without it, with a correct tail |
| `ReadyQueue.SwitchReady` | kernel/process/scheduler.c:95-154 | a switch keeps a queue of READY processes one and never closes a cycle in it |
| `ReadyQueue.SwitchedPlain` | kernel/process/scheduler.c:95-154 | the queue after a switch: without its head; with a running current behind it if that was not queued, cut after it otherwise |
| `ReadyQueue.BlockedReady` | kernel/process/scheduler.c:156-164 | blocking keeps the queue READY and acyclic exactly under the stated condition on queue, current and reason |
| `ReadyQueue.BlockingStrands` | kernel/process/scheduler.c:156-164 | blocking current while it waits second leaves it queued and not READY |
| `ReadyQueue.TurnTakesOne` | kernel/process/scheduler.c:95-154 | a tick or yield takes at most one process other than current, from the front |
| `ReadyQueue.SwitchesDrain` | kernel/process/scheduler.c:95-154 | over every run of turns the other processes only leave, in order, and none is queued again |
| `ReadyQueue.Scheduler.Add` | kernel/process/scheduler.c:24-38 | new memory and queue for every argument; well-formed afterwards if and only if the process was not the tail, all READY if and only if it is READY too |
| `ReadyQueue.Scheduler.Remove` | kernel/process/scheduler.c:40-63 | the queue without that process; others, their order, the tail and all states kept; no change if it is not queued |
| `ReadyQueue.Scheduler.FindPrev` | kernel/process/scheduler.c:53-55 | the walk finds the predecessor, and NULL only if the process is not queued |
| `ReadyQueue.Scheduler.Tick` | kernel/process/scheduler.c:95-132 | counts the quantum of 20 down; switches exactly when it is used up and another process heads the queue: the head leaves and runs, a running current becomes READY and goes to the end, no other state changes; keeps a READY queue |
| `ReadyQueue.Scheduler.Yield` | kernel/process/scheduler.c:134-154 | switches unless there is no current or no waiting process: the head leaves and runs, a running current becomes READY and goes to the end, no other state changes; and exactly when a cycle is closed |
| `ReadyQueue.Scheduler.BlockCurrent` | kernel/process/scheduler.c:156-164 | current gets the state asked for and the head of the queue runs, no other state changes; the queue stays a list of READY processes exactly under the stated condition |
| `ReadyQueue.Scheduler.Run` | kernel/process/scheduler.c:95-154 | any run of ticks and yields is a run of turns: the processes other than current leave from the front in order, and none is queued again |
| `ReadyQueue.Scheduler.Perform` | kernel/process/scheduler.c:24-173 | a tick, yield, add, unblock or remove keeps a steady queue steady and a queue of READY processes one; only the process added or unblocked and current can enter |
| `ReadyQueue.Scheduler.RunCalls` | kernel/process/scheduler.c:24-173 | so does every run of these calls |
| `ReadyQueue.Scheduler.Unblock` | kernel/process/scheduler.c:166-173 | the process becomes READY and is queued; a list is left if and only if it was not the tail |
| `CString.MemMove` | kernel/lib/string.c:21-35 | the destination holds the old source for every overlap, the rest is unchanged |
| `CString.StrLen` | kernel/lib/string.c:50-56 | the length of the terminated string |
| `CString.StrCmp` | kernel/lib/string.c:58-65 | zero if and only if the strings are equal, negative if and only if the first is before the second |
| `CString.StrChr` | kernel/lib/string.c:107-115 | the first occurrence, the terminator included; none if and only if the character does not occur |
| `CString.StrNCpy` | kernel/lib/string.c:87-95 | a shorter source is padded with zeros up to n + 1 bytes, a longer one is cut without a terminator, and nothing behind is touched |
| `Numerals.NumeralRoundTrip` | kernel/lib/stdio.c:86-124 | a number's digits evaluate to it and have no leading zero |
| `Numerals.CanonicalUnique` | kernel/lib/stdio.c:86-124 | digits without a leading zero are the numeral of their value |
| `Numerals.WordDigits` | kernel/lib/stdio.c:86-124 | 32-bit numbers need at most 10 decimal and 8 hexadecimal digits |
| `Numerals.NumTextReads` | kernel/lib/stdio.c:86-124 | the printed text reads back to the number |
| `Numerals.IntTextReadsIff` | kernel/lib/stdio.c:58-84 | a printed integer reads back if and only if it is not the smallest int32_t |
| `Numerals.PrintedCharacters` | kernel/lib/stdio.c:58-124 | the sixteen digit characters, and a minus sign in front of exactly the negative numbers; the smallest int32_t prints the sign alone |
| `Console.AdvanceLaw` | kernel/lib/stdio.c:26-43 | newline and return go to column 0, a tab to the next multiple of 8, a printed character one to the right; only newline, return and backspace move left |
| `Console.PutValid` | kernel/lib/stdio.c:26-50 | the cursor stays inside the last 25 rows |
| `Console.FeedConcat` | kernel/lib/stdio.c:52-56 | printing two strings in turn is printing their concatenation |
| `Console.ScrollbackFixed` | kernel/lib/stdio.c:14-50 | whatever is printed, rows scrolled off the screen never change and the terminal only grows |
| `Console.WindowOfPut` | kernel/lib/stdio.c:14-50 | the 80x25 window of the unbounded terminal changes as the VGA buffer does |
| `Console.Screen.Scroll` | kernel/lib/stdio.c:14-24 | rows move up by one and the last is blank, only past the bottom |
| `Console.Screen.PutChar` | kernel/lib/stdio.c:26-50 | newline, return, tab, backspace and printed characters, each by the cell it writes, the cursor and the row it goes to, scrolling by one row from the last; the buffer and cursor show the last 25 rows of the terminal after the character |
| `Console.Screen.Place` | kernel/lib/stdio.c:26-47 | the cell written and the cursor before scrolling, for each kind of character |
| `Console.Screen.PrintStr` | kernel/lib/stdio.c:52-56 | the terminal after the whole string |
| `Console.Screen.FillDigits` | kernel/lib/stdio.c:74-77 | the digit loop leaves the numeral, reversed, within the buffer |
| `Console.Screen.PrintInt` | kernel/lib/stdio.c:58-84 | prints the sign and magnitude text in 32-bit arithmetic |
| `Console.Screen.PrintUint` | kernel/lib/stdio.c:86-103 | prints the decimal numeral |
| `Console.Screen.PrintHex` | kernel/lib/stdio.c:105-124 | prints 0x and the hexadecimal numeral |
| `FileContents.ReadAfterWrite` | kernel/fs/ramfs.c:10-61 | reading a written range returns the written bytes |
| `FileContents.ReadElsewhere` | kernel/fs/ramfs.c:10-61 | reading a range the write did not touch returns what was there |
| `FileContents.FitsIff` | kernel/fs/ramfs.c:33-39 | although the doubling wraps, a write is refused for size if and only if it ends past 64 KB, and the capacity is twice the size or the limit |
| `FileContents.AcceptedInBoundsIff` | kernel/fs/ramfs.c:33-55 | a write that passes the tests stays in its buffer if and only if offset + size does not wrap |
| `FileContents.WrappedWriteEscapes` | kernel/fs/ramfs.c:33-55 | two bytes at offset 2^32 - 1 pass the test of any non-empty buffer and land outside |
| `FileContents.AtMostSixteen` | kernel/fs/ramfs.c:33-53 | over every sequence of writes the growth of a buffer counts at most sixteen reallocations |
| `RamState.GrownAtMostSixteen` | kernel/fs/ramfs.c:33-53 | in every valid file system each file has been reallocated at most sixteen times |
| `FileTree.LookupIsMap` | kernel/fs/ramfs.c:92-104 | with unique names the sibling search is a map lookup: found if and only if the name is there, and then that child |
| `FileTree.FirstNamedFirst` | kernel/fs/ramfs.c:92-104 | the search finds a child if and only if it has the name and no child before it does |
| `FileTree.InsertThreaded` | kernel/fs/ramfs.c:155-160 | linking a new child in front keeps every directory's child list and parent links |
| `FileTree.InsertUniqueIff` | kernel/fs/ramfs.c:144-161 | a directory keeps unique names if and only if the new stored name is not among them |
| `FileTree.LongNamesCollide` | kernel/fs/ramfs.c:112-114 | two different names can be stored as the same truncated name |
| `FileTree.RemoveThreaded` | kernel/fs/ramfs.c:163-192 | bypassing a child keeps every other directory and the order of the siblings |
| `TreeHistory.AgedInsert` | kernel/fs/ramfs.c:106-161 | a creation keeps children younger than their directory and the youngest in front, with inode numbers counting creations |
| `TreeHistory.AgedRemove` | kernel/fs/ramfs.c:163-192 | so does a removal |
| `TreeHistory.UniqueInsertIff` | kernel/fs/ramfs.c:144-161 | a creation keeps names unique in every directory if and only if no sibling carries the truncated name |
| `TreeHistory.UniqueRemove` | kernel/fs/ramfs.c:163-192 | a removal keeps names unique in every directory |
| `TreeHistory.InodesDistinct` | kernel/fs/ramfs.c:115-115 | inode numbers tell nodes apart while at most 2^32 were created |
| `TreeHistory.ListingFalls` | kernel/fs/ramfs.c:76-90 | listings run in reverse order of creation: inode numbers fall until they wrap |
| `TreeHistory.InsertBelow` | kernel/fs/ramfs.c:144-161 | a creation keeps every node below the root with its path, and puts the new one below it if its parent is |
| `TreeHistory.RemoveBelow` | kernel/fs/ramfs.c:163-192 | after a removal a node is below the root if and only if it was and was not below the child removed; its path is what it was |
| `TreeHistory.RootsKeptInsert` | kernel/fs/ramfs.c:144-161 | a creation keeps every root directory |
| `TreeHistory.RootsKeptRemove` | kernel/fs/ramfs.c:163-192 | a removal never takes a root directory |
| `Claims.ClaimAdded` | kernel/fs/ramfs.c:106-142 | an allocation keeps the account of which live heap block belongs to which node, file or buffer, and what others hold |
| `Claims.ClaimDropped` | kernel/fs/ramfs.c:178-187 | so does a release |
| `Claims.OthersBalanced` | kernel/memory/kheap.c:63-104 | the account stands if and only if others leave the claimed blocks live |
| `Claims.SameClaimsSameHeap` | kernel/fs/ramfs.c:106-192 | equal accounts beside equal holdings of others imply equal heaps |
| `RamState.RestoreTree` | kernel/fs/ramfs.c:144-192 | removing the child just linked restores every node and child list |
| `RamFs.FileSystem.Init` | kernel/fs/ramfs.c:228-249 | a new root directory with no children, or NULL exactly when no node can be allocated; all invariants established, nothing else touched |
| `RamFs.FileSystem.OtherMalloc` | kernel/memory/kheap.c:63-82 | an allocation by another part of the kernel keeps the file system valid and every file's bytes |
| `RamFs.FileSystem.OtherFree` | kernel/memory/kheap.c:96-104 | so does freeing a block the file system does not hold |
| `RamFs.FileSystem.Read` | kernel/fs/ramfs.c:10-25 | -1 if and only if there is no file or no buffer; otherwise the bytes from offset on, as many as asked for or as are left, none from the end on |
| `RamFs.FileSystem.Write` | kernel/fs/ramfs.c:27-61 | -1, with nothing changed, if and only if there is no file or buffer, or the end, in 32 bits, is beyond the capacity and either beyond 64 KB or without a block of twice the end (at most 64 KB) in the heap; otherwise the bytes are written, the gap aside, node and file sizes agree and every other file and node is as before |
| `RamFs.FileSystem.Grow` | kernel/fs/ramfs.c:41-53 | a larger buffer with the same contents, the old one freed, other files' bytes kept; or no change |
| `RamFs.FileSystem.ReadDir` | kernel/fs/ramfs.c:76-90 | the child at that index of the sibling list, older than all before it and younger than all after it, or NULL |
| `RamFs.FileSystem.FindDir` | kernel/fs/ramfs.c:92-104 | the first child of that name, or NULL |
| `RamFs.FileSystem.CreateNode` | kernel/fs/ramfs.c:106-142 | a fresh node as asked for: type, name cut to 127 bytes, next inode number, permissions 0755; it has an empty file record if and only if its type has the file bit and the heap has 12 bytes behind the 180 of the node |
| `RamFs.FileSystem.DoCreate` | kernel/fs/ramfs.c:144-161 | succeeds if and only if the parent is a directory without that name and a node can be allocated; the child, as CreateNode makes it, heads the list of its parent, no other node changes, all file contents kept; names stay unique if and only if the stored name is new, so always under 128 bytes; failure changes nothing |
| `RamFs.FileSystem.DoMkdir` | kernel/fs/ramfs.c:194-226 | the same for a directory with its mode and operations |
| `RamFs.FileSystem.DoUnlink` | kernel/fs/ramfs.c:163-192 | succeeds if and only if the name is found; exactly the first child of that name, its file and its heap blocks go, all other contents, lists and node fields but the link to it and the uniqueness of names stay |
| `RamFs.FileSystem.WriteAll` | kernel/fs/ramfs.c:27-61 | any sequence of writes changes that file only, and its capacity and reallocation count are those of the growth run |
| `RamFs.FileSystem.Perform` | kernel/fs/ramfs.c:27-226 | one call of the interface keeps the file system valid, what others hold, every root directory, and unique names if its name is under 128 bytes |
| `RamFs.FileSystem.Run` | kernel/fs/ramfs.c:27-226 | so does every run of calls |
| `RamFs.FileSystem.CreateWriteUnlink` | kernel/fs/ramfs.c:27-192 | create, any writes, unlink: the name can be unlinked if and only if it is under 128 bytes, and then nodes, files, child lists and heap are restored exactly |
| `RamFs.FileSystem.CreateWriteRead` | kernel/fs/ramfs.c:10-161 | create, write at 0, read back: returns the length and the bytes written, if and only if the directory has no such name and the heap has room for node, record and buffer in turn, within 64 KB |
| `Paths.SplitJoined` | kernel/fs/vfs.c:118-152 | splitting a path printed from names gives the names back |
| `Paths.SplitPrintedIff` | kernel/fs/vfs.c:118-152 | splitting what the buffer keeps of a printed path gives the names back if and only if they are plain and the path has at most 1023 bytes |
| `Paths.DescendTo` | kernel/fs/vfs.c:118-152 | with unique names, the names to a node below the root lead to it |
| `Paths.DescendNames` | kernel/fs/vfs.c:118-152 | names lead only to the node below the root that they are the names to |
| `Paths.ResolvesPrintedIff` | kernel/fs/vfs.c:118-152 | the printed path of any node below the root resolves to it if and only if its names are plain and the path has at most 1023 bytes |
| `Paths.BufferTerminatedIff` | kernel/fs/vfs.c:126-128 | the local buffer holds a string if and only if the path is under 1023 bytes or the stack held 0 behind it |
| `Paths.Vfs.Mount` | kernel/fs/vfs.c:90-116 | succeeds if and only if all arguments are given, fewer than 16 mounts exist and a record can be allocated; a record with the cut path, type and node goes in front; sets the root exactly for "/"; the file system is untouched |
| `Paths.Vfs.ResolvePath` | kernel/fs/vfs.c:118-152 | the node reached by the path's non-empty components, cut to 1023 bytes, or NULL; for the printed path of a node below the root, that node if and only if the path is printable |
| `Paths.Vfs.Walk` | kernel/fs/vfs.c:126-151 | the destructive token loop visits exactly the components |
| `Paths.Vfs.TakeToken` | kernel/fs/vfs.c:134-149 | one round looks up the next component, skipping empty ones, and cuts it off at its separator |
| `Kernel.OthersStand` | kernel/fs/ramfs.c:27-226 | whatever the file system does with its blocks, process structures stay live and apart |
| `Kernel.CallFiles` | kernel/kernel_main.c:111-119 | a file-system call keeps the file system, the process table and every root directory |
| `Kernel.Spawn` | kernel/process/process.c:28-81 | creating a process keeps the file system valid, every file's bytes and every other process structure |
| `Kernel.Exit` | kernel/process/process.c:83-96 | terminating keeps the file system valid and every file's bytes |
| `Kernel.Schedule` | kernel/process/scheduler.c:24-173 | a scheduler call keeps the file system and the process table valid and the queue steady |
| `Kernel.Step` | kernel/kernel_main.c:111-122 | one request of any kind keeps everything boot set up; apart from scheduler calls the queue is unchanged and READY if and only if it was and no queued process is terminated |
| `Kernel.Run` | kernel/kernel_main.c:111-122 | every run of file, process and scheduler requests keeps everything boot set up, and names unique if all are under 128 bytes; the queue stays READY without terminations, and without scheduler calls if and only if no queued process is terminated |
| `Kernel.Boot` | kernel/kernel_main.c:111-122 | after start-up file system, mount, processes and queue all stand, and there is an empty root directory if and only if the heap had room |
| `Kernel.RoomAtBoot` | kernel/kernel_main.c:96-115 | the heap as initialised has that room |
| `Kernel.BootRunResolve` | kernel/kernel_main.c:111-122 | from boot through any run of requests with names under 128 bytes, the printed path of a node below the root resolves to it if and only if it can be printed |
| `Kernel.TerminateQueued` | kernel/process/process.c:83-96 | terminating leaves the queue a list, and one of READY processes if and only if the process is not queued |

## Left out

- KernelHeap.KHeap.Kfree: a pointer that is not live is outside the contract, as it is for the C code; the code has no check that could be modelled.
- KernelHeap.KHeap.Krealloc: required of the caller is exactly that the copy fits the new block; what the overrunning copy destroys otherwise is not modelled.
- PhysicalMemory.Pmm.Init: the map is a sequence of entries, not a byte buffer walked by entry size, and the flag tested is 0x20 as written, not the multiboot memory-map flag 0x40.
- Paging.MapPageWalk: flags of 0x1000 and above are outside the contract exactly where a new directory word would take them, because it then names another table (`Paging.DirEntryIff`).
- PhysicalMemory.Pmm.InitThenAlloc: stated for the maps on which the counter is exact and the free frames are the usable ones (`MemoryMap.CounterExactIff`, `MemoryMap.FreeIsUsableIff`); on others Init alone says what is free.
- VirtualMemory.Vmm.Init: at least one free frame is required, because the code does not test the kernel directory's frame; CR3, CR0 and the TLB are not modelled.
- VirtualMemory.Vmm.CreateAddressSpace: `page_directory_t` is larger than the one frame it is placed in; the directory is modelled as an object of its own, so what the overlap overwrites is not. `kernel_main` never calls `vmm_init`, and an initialised kernel directory is assumed.
- RamFs.FileSystem.Write: bytes of a gap between the old end and the offset are unspecified, as in the code; an accepted write whose offset + size wraps is outside the contract, because it copies outside its buffer.
- RamFs.FileSystem.CreateWriteUnlink: no write in the sequence may wrap, for the same reason; the same holds for the runs of calls.
- RamFs.FileSystem.DoUnlink: the children of an unlinked directory stay allocated and unreachable, as in the code; the account of blocks still lists them.
- ProcessTable.ProcessManager.Create: the code interleaves storing the fields with obtaining memory; the model obtains first and stores then, which no caller can tell apart.
- ProcessTable.ProcessManager.Terminate: as in the code, nothing is released.
- CString.MemMove: moves array elements; byte and word granularity are the same here.
- Paths.Vfs.Mount: record fields are the bytes `strncpy` keeps; a path of 1023 bytes or more has no terminator of its own.
- Kernel.Boot: an initialised kernel directory is assumed; `kernel_main` never calls `vmm_init`, and creating a process then reads the directory through a NULL pointer.
- Kernel.Run: mounting is not among the requests, and blocking is not among the scheduler's, since `ReadyQueue.Scheduler.BlockCurrent` can leave a waiting process that is not READY.
- Paths.Vfs.ResolvePath: a path of 1023 bytes or more with a nonzero byte behind the buffer is outside the contract, because the code then reads past it; `.` and `..` are ordinary names, as in the code, and mounts other than the root are not followed, as in the code.
- Process, node, file, directory and page-table structures are records in maps keyed by address; only heap headers and file data are modelled as bytes.
- `context_switch`, interrupts and assembly: a switch changes states and the queue only.
- `vfs_open`, `vfs_close`, the operation tables and their dispatch: each is one test and one call.
- `kprintf` formatting, the shell, system calls, drivers, GDT and IDT: easy members, or hardware.
- The memory of the kernel image: `pmm_init` does not reserve it, and neither does the model.
