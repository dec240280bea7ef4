# XenonOS memory stack, threads and console: a verified model

This project models the parts of XenonOS in which small C functions keep large invariants together:
physical frames, page tables, slabs and kmalloc, thread stacks, the scheduler, the register switch,
the spinlock, and the text console with its line editor. Each part is written against a specification
that the next part uses, and what the system promises is proved about the specification. Where that
is a function with the branches of the code, it is characterised without it in turn: the bytes that boot
reads by the numbers they hold (`Multiboot.Describes`), the page tables by a finite map
(`PagingRuns.Refines`), the console by lines of text (`Transcripts.LinesAppear`,
`Keyboard.SessionTypes`).

| file | module | models |
|---|---|---|
| `words.dfy`, `bits.dfy` | `Words`, `Bits` | 32-bit words, bits of a word |
| `multiboot.dfy` | `Multiboot` | the Multiboot2 tag stream and memory map |
| `pmm.dfy` | `Pmm` | the frame bitmap with its search hint |
| `hardware.dfy` | `Hardware` | physical memory, the two-level page walk, a TLB filled by accesses |
| `paging.dfy`, `paging_runs.dfy` | `Paging`, `PagingRuns` | recursive page tables, and their runs as a finite map |
| `slab_page.dfy` | `SlabPage` | one slab page: header, objects, free list in the objects |
| `world.dfy`, `transitions.dfy`, `slices.dfy` | `World`, `Transitions`, `Slices` | the invariant of the whole memory stack, and every kind of change to it |
| `heap_steps.dfy`, `large_steps.dfy`, `thread_steps.dfy` | `HeapSteps`, `LargeSteps`, `ThreadSteps` | what slab, large-block and thread calls do to a snapshot |
| `isolation.dfy`, `heap_calls.dfy`, `reuse.dfy`, `ownership.dfy` | `Isolation`, `HeapCalls`, `Reuse`, `Ownership` | what the calls mean for their callers |
| `thread_places.dfy`, `thread_memory.dfy` | `ThreadPlaces`, `ThreadMemory` | stacks and structures of threads as the threads and the switch between them use them |
| `memory_runs.dfy` | `MemoryRuns` | runs of calls into the memory stack: what becomes of frames and blocks |
| `kernel_memory.dfy` | `KernelMemory` | slab allocator, kmalloc, kfree, thread creation and destruction as code over the paged machine |
| `boot.dfy` | `Startup` | frames, paging and heap started one after the other |
| `ticks.dfy`, `ring.dfy`, `ring_runs.dfy`, `ring_safety.dfy` | `Ticks`, `Ring`, `RingRuns`, `RingSafety` | sleeping arithmetic, the ring of threads and its runs |
| `scheduler.dfy` | `Scheduler` | the linked ring as code |
| `context_switch.dfy`, `thread_runs.dfy` | `ContextSwitch`, `ThreadRuns` | the register switch, and runs of many threads |
| `spinlock.dfy` | `Spinlock` | the lock protocol among many cores, with interrupts |
| `terminal.dfy`, `keyboard.dfy` | `Transcripts`, `Terminals`, `Keyboard` | the screen as a window on a transcript, the echoing line editor |

## How the memory stack is modelled

The code runs on a machine whose loads and stores go through the page walk and a TLB, so
`page_table_virtual` really is an address that the recursive directory slot has to translate. A ghost
view says what each frame is used for, and `World.Inv` ties bitmap, page tables, slab headers, free
lists, large headers and thread structures to it. Every call that the rest of the kernel makes, a
method of `KernelMemory.Kernel`, requires and ensures `Valid()`, which contains `World.Inv`; the
methods for single loads, stores and loops inside such a call promise what they do to the words.
`Transitions.Kept` says that all other allocated blocks still have their place and contents.

Calls that can go wrong end in an `Outcome`: a pointer (0 for failure), a page fault at the first
store through a page that could not be mapped, or a torn block that lacks a page. A large allocation
whose last page table is missing really ends that way, because `paging_map` returns silently
(src/memory/paging.c:57-59) and `kmalloc_large` does not look. Creating a thread goes on when frames
run out: it maps the failure value of `pmm_alloc` wherever a page table is at hand, and
`ThreadSteps.StackEnds` says exactly when the first store to the stack then faults and when a thread
comes back whose missing pages map the topmost frame or nothing.

`World.Accounts` keeps the books of every call: the used frames gained and lost, the fresh page tables,
and the frames left to nobody. `MemoryRuns.CallStep` is what every call promises, and over runs of
calls it gives two exact accounts. The live blocks are those that were handed out and not freed since
(`MemoryRuns.LiveExactly`). Frames belong to nobody if and only if a call was made in a state in which
it had to fail with frames already taken, `MemoryRuns.Strands`, a condition on that state and the
arguments (`MemoryRuns.OrphansExactly`). So without such a call every used frame has an owner, and once
every block handed out has been freed nothing but the boot frames and the page tables is used
(`MemoryRuns.NothingLeaks`).

What the model takes for granted, because the code does not enforce it:

- the allocators run one call at a time, since they take no lock;
- `scheduler_yield` is one step; on the timer path the interrupt gate makes it so;
- allocatable frames lie below 0xC0000000: those above are marked used at boot (slab pages are
  identity-mapped, src/memory/slab.c:23);
- kmalloc is not asked for a size that its 32-bit region check gets wrong: `LargeSteps.RegionRight` is
  the exact condition, and every size up to 0x2FFFEFF8 bytes meets it;
- kfree, `slab_free`, `pmm_free` and `thread_destroy` get what was handed out whole and not yet freed,
  no block or stack that lacks pages;
- the stack region has room for a new stack and its guard page, and a stack has at least one page;
- the page that holds the page directory is not remapped;
- object sizes are those of the nine caches, all multiples of four bytes;
- the processor runs at supervisor level with CR0.WP clear, so that the writable bit plays no part.

Where a comment and the code differ, the model follows the code: `free_region` is described as freeing
every overlapping frame (src/memory/pmm.c:53) and frees only frames that lie wholly inside.

## Four results that are not as intended

- Caps Lock changes no key (`Keyboard.CapsLockIdle`): without Shift the second adjustment turns the
  letter back, with Shift neither applies (src/io/keyboard.c:95-99).
- `thread_sleep` computes the right number of ticks exactly up to 42949662 ms
  (`Ticks.SleepTicksExact`); one millisecond more sleeps for no tick at all (`Ticks.SleepTooLong`).
- Interrupts do not stay off throughout every hold: releasing two locks in the order they were taken
  turns them on while the second is held (`Spinlock.NotNestedUnsafe`). They stay off if and only if
  every release that restores "on" leaves no other lock held in its context (`Spinlock.UnlockExactly`
  for one release, `Spinlock.OffExactly` for runs); nested releases do (`Spinlock.NestedMeansOff`).
- A block or a stack that lacks pages must not be freed, although its pointer was returned: for a missing
  page of a block kfree would free frame 0 (`LargeSteps.TornFreesZero`), for one of a stack
  `thread_destroy` would free frame 0 or the topmost one (`ThreadSteps.TornStackFrees`), all reserved
  at boot.

## Model

| member | source | states |
|---|---|---|
| `Multiboot.FindTag` | src/memory/multiboot.c:3-25 | for every list of tags that the bytes hold, each at the first multiple of 8 after the one before, the walk returns the place of the first tag of the wanted type, and none exactly when none has it |
| `Multiboot.Read32Digits` | src/memory/multiboot.h:15-19 | a 32-bit field reads as v if and only if its bytes are the base-256 digits of v, lowest first |
| `Multiboot.Read64Digits` | src/memory/multiboot.h:45-51 | the same for a 64-bit field and its eight bytes |
| `Multiboot.StreamFinds` | src/memory/multiboot.c:10-22 | bytes that hold such a list of tags are well-formed, and the first tag of the type is the one that the walk finds |
| `Multiboot.InfoIsStream` | src/memory/multiboot.c:7-22 | the other way round, well-formed bytes always hold such a list |
| `Multiboot.DescribedMap` | src/memory/pmm.c:87-105 | when the bytes hold a memory map of the given numbers, base in bytes 0-7, length in bytes 8-15 and type in bytes 16-19 of each entry, the entries that boot reads are these numbers in their order |
| `Multiboot.InfoDescribed` | src/memory/pmm.c:87-105 | all boot information that boot accepts is described by some numbers |
| `Multiboot.FirstOfTypeIsFirst` | src/memory/multiboot.c:10-22 | the tag found has the type and no earlier tag before the end tag does; none is found exactly when no such tag exists |
| `Multiboot.FreeRounding` | src/memory/pmm.c:55-62 | rounding the base up and the end down frees exactly the frames that lie wholly inside a region, up to the last page of the 64-bit space |
| `Multiboot.FreeRoundingExact` | src/memory/pmm.c:55-62 | it does so for every tracked frame if and only if the 64-bit sums do not wrap, or wrap to an end beyond all tracked frames |
| `Multiboot.ReserveRounding` | src/memory/pmm.c:68-76 | rounding the base down and the end up reserves exactly the frames that a region touches |
| `Multiboot.ReserveRoundingExact` | src/memory/pmm.c:68-76 | for the 32-bit arguments that boot passes it does so if and only if the region is not empty or starts at a frame; an empty one inside a frame still reserves it |
| `Pmm.HintedScanExact` | src/memory/pmm.c:29-51 | the scan from the hint gives the lowest free frame of the whole bitmap if and only if every word below the hint is full, or it finds none and none is free |
| `Pmm.WrapNeverFinds` | src/memory/pmm.c:40-48 | when all words below the hint are full, the wrap-around loop finds no word with a free frame |
| `Pmm.FrameAllocator.FirstFreeFrame` | src/memory/pmm.c:29-51 | both loops together return what the hinted scan specifies and leave the hint at the word found |
| `Pmm.FrameAllocator.Alloc` | src/memory/pmm.c:115-129 | hands out the lowest-numbered free frame and marks only it; returns the failure value exactly when every frame is used, which never is a frame's address |
| `Pmm.FrameAllocator.Free` | src/memory/pmm.c:131-142 | exactly the given frame becomes free, and the hint is pulled back so that all words below it stay full |
| `Pmm.FrameAllocator.FreeRegion` | src/memory/pmm.c:55-64 | the frames wholly inside the region become free, no others change |
| `Pmm.FrameAllocator.ReserveRegion` | src/memory/pmm.c:68-77 | the frames that the region touches become used, no others change |
| `Pmm.FrameAllocator.Initialize` | src/memory/pmm.c:79-113 | for every list of numbers that the memory map holds, after boot a frame is free if and only if it lies wholly inside an entry of type 1 and touches neither the low 1 MiB nor the kernel image, for every map whose available entries the rounding gets right |
| `Pmm.EntryFreed` | src/memory/pmm.c:96-104 | freeing one entry after others leaves free exactly the frames wholly inside one of them |
| `Paging.PagingUnit.Read` | src/memory/paging.c:102-103 | a load gives the word that the page walk leads to, also when a cached translation served it, and leaves the cache coherent |
| `Hardware.Processor.Invlpg` | src/memory/paging.c:8-12 | one page's cached translation is dropped |
| `Paging.PagingUnit.Initialize` | src/memory/paging.c:20-41 | paging starts with the first 4 MiB mapped to themselves, the directory in its own last slot, nothing else mapped, and no stale translation |
| `Paging.WindowReachesTable` | src/memory/paging.c:14-18 | for every installed table, the walk takes the word `page_table_virtual(pdi)[pti]` to entry pti of the table installed at pdi |
| `Paging.SameTables` | src/memory/paging.c:43-73 | writing frames that hold no paging structure changes no translation |
| `Paging.MappedTranslates` | src/memory/paging.c:69-70 | storing a table entry through the window changes the translation of exactly that page among those below the window |
| `Paging.InstalledTranslates` | src/memory/paging.c:55-67 | installing a fresh, cleared table changes no translation, whatever its frame held before |
| `Paging.MappedCoherent` | src/memory/paging.c:70-72 | after the entry is stored and its page invalidated, every cached translation agrees with the walk, those of the window included |
| `Paging.EntryInstalled` | src/memory/paging.c:55-62 | a table put into an empty slot leaves no cached translation wrong, although it is not cleared yet |
| `Paging.MapTranslates` | src/memory/paging.c:43-73 | `paging_map` changes the translation of exactly one page below 0xFFC00000, to the given frame, or nothing when no frame is left for the table |
| `Paging.MapDirectory` | src/memory/paging.c:55-67 | `paging_map` takes a frame exactly when the directory slot was empty and a frame was free, and changes no other slot |
| `Paging.UnmapTranslates` | src/memory/paging.c:75-89 | `paging_unmap` makes exactly one page untranslated and frees no table |
| `Paging.PagingUnit.ClearTable` | src/memory/paging.c:64-66 | the loop clears the new table, and only it, through its window page |
| `Paging.PagingUnit.Map` | src/memory/paging.c:43-73 | the code has exactly the effect that the map lemmas speak about and leaves no stale translation |
| `Paging.PagingUnit.Unmap` | src/memory/paging.c:75-89 | the code has exactly the effect that the unmap lemma speaks about and leaves no stale translation |
| `Paging.PagingUnit.GetPhysical` | src/memory/paging.c:91-104 | the code, a load of the directory and one through the window, returns what the rows up to `PagingRuns.UnmappedReadsZero` speak about, and leaves the cache coherent |
| `Paging.PhysicalIsTranslation` | src/memory/paging.c:91-104 | for a mapped page that is the frame the walk translates to |
| `Paging.EntryParts` | src/memory/paging.c:69-70 | an entry has the frame of the address and the flags given, and translates to that frame exactly if bit 0 of the flags is set |
| `Paging.MapPhysical` | src/memory/paging.c:43-104 | `paging_map`, with any flags, changes what `paging_get_physical` returns for exactly one page, to the page-aligned address given, and for none if no frame is left for the table |
| `Paging.UnmapPhysical` | src/memory/paging.c:75-104 | after `paging_unmap` the page reads 0 and every other page as before |
| `PagingRuns.StepRefines` | src/memory/paging.c:43-104 | one map with any flags, unmap or unrelated step changes translations and readings as it changes a finite map |
| `PagingRuns.RunRefines` | src/memory/paging.c:43-104 | over every run of maps, unmaps and other activity the hardware walk is a finite map from pages to frames, and `paging_get_physical` returns what that map says for every page |
| `PagingRuns.PhysicalReadsMap` | src/memory/paging.c:91-104 | from boot on, over every run, a page below the window reads the address it was last mapped to and not unmapped since, and every other page reads 0 |
| `PagingRuns.UnmappedReadsZero` | src/tests/test_paging.c:7-13 | a page just unmapped reads 0 and does not translate |
| `SlabPage.ObjectIndex` | src/memory/slab.c:31-37 | the objects that fit in a page are exactly those with an index below (4096 - 20) / object_size |
| `SlabPage.ObjectsDisjoint` | src/memory/slab.c:35-41 | two objects of a page do not overlap |
| `SlabPage.LivePlusFree` | src/memory/slab.c:35-43 | live plus free objects make up the capacity, and the free counter equals the capacity exactly when no object is live |
| `SlabPage.TakenOk` | src/memory/slab.c:48-54 | taking an object removes the head of the free list and keeps the page well-formed |
| `SlabPage.PutOk` | src/memory/slab.c:80-82 | freeing an object puts it at the head of the free list and keeps the page well-formed |
| `SlabPage.PutUndoesTake` | src/memory/slab.c:48-82 | putting back the object just taken restores every word of the page |
| `SlabPage.BuiltOk` | src/memory/slab.c:35-41 | the list that creating a slab builds holds every object once |
| `SlabPage.StoreInObject` | src/memory/slab.c:31-54 | a store inside a live object leaves header and free list as they were |
| `World.UntouchedSlabs` | src/memory/slab.c:15-94 | the slab half of the invariant depends on slab frames, their owners and the translations of their pages only |
| `World.UntouchedSlices` | src/memory/heap.c:42-83 | the same for large blocks and thread stacks |
| `Transitions.AllocatedInv` | src/memory/pmm.c:115-129 | taking a frame keeps the whole invariant and every allocated block |
| `Transitions.ReleasedInv` | src/memory/pmm.c:131-142 | giving back a frame that belongs to nobody keeps the whole invariant and every allocated block |
| `Transitions.MappedInv` | src/memory/paging.c:43-73 | mapping a page that no slab and no run uses keeps the whole invariant, every block, and gives a new table frame to its slot |
| `Transitions.UnmappedInv` | src/memory/paging.c:75-89 | unmapping such a page keeps the whole invariant and every block |
| `Transitions.SlabChangedInv` | src/memory/slab.c:48-82 | changing a slab page and its free list but for one object keeps the invariant and every other block |
| `Transitions.AdoptedInv` | src/memory/slab.c:64-69 | putting a filled page at the head of its cache's list keeps the invariant and every block |
| `Transitions.RetiredInv` | src/memory/slab.c:87-91 | unlinking the slab whose last object goes keeps the list linked, the invariant, and every other block |
| `Slices.LargeAdvanced` | src/memory/heap.c:50-51 | moving the large cursor reserves pages that are unmapped and belong to nothing |
| `Slices.StackAdvanced` | src/tasks/thread.c:55-56 | moving the stack cursor reserves stack pages and a guard page that are unmapped and belong to nothing |
| `Slices.SliceAdoptedInv` | src/memory/heap.c:62-66 | a fully mapped run with its header or thread structure becomes a block, apart from all others |
| `Slices.SliceDroppedInv` | src/memory/heap.c:69-83 | a run taken apart leaves the other runs and all blocks as they were |
| `HeapSteps.AllocGives` | src/memory/slab.c:56-72 | every object handed out was not live before and is live after |
| `HeapSteps.OneLive` | src/memory/slab.c:84-87 | when all other objects are free, the one being freed is the page's only live one |
| `HeapSteps.TakenInv` | src/memory/slab.c:48-62 | taking from a listed slab keeps the invariant and makes a dead object live |
| `HeapSteps.PutInv` | src/memory/slab.c:80-85 | freeing into a slab with other live objects keeps the invariant and every other block |
| `HeapSteps.AllocAccounts` | src/memory/slab.c:56-72 | an allocation takes no frame when a listed slab has a free object, else the lowest one, which becomes a slab page unless the call faults; besides it, page tables only |
| `HeapSteps.AllocServes` | src/memory/slab.c:56-72 | an allocation succeeds exactly if a listed slab has a free object, or a frame is free whose own page can be mapped; it faults exactly if its frame's page cannot |
| `HeapSteps.AllocLive` | src/memory/slab.c:56-72 | afterwards the live blocks are those before and the object handed out, no others |
| `HeapSteps.FreeLive` | src/memory/slab.c:80-93 | afterwards the live blocks are those before but the object freed |
| `HeapSteps.FreeAccounts` | src/memory/slab.c:80-93 | freeing an object gives back the page with its last live object and no other frame, and touches neither page tables nor stray frames |
| `HeapSteps.BootInv` | src/memory/heap.c:28-40 | the state right after boot satisfies the whole invariant |
| `KernelMemory.Kernel.Initialize` | src/memory/heap.c:28-40 | the memory stack starts valid, with no block, exactly the boot frames used, no stray frame, and 1 as the next thread id |
| `Startup.Start` | src/kernel.c:25-27 | for a memory map that offers no frame from 3 GiB up and an image within the first 4 MiB, frames, paging and heap start one after the other, each with what the one before leaves, and end valid, without a block and without a stray frame |
| `KernelMemory.Kernel.SlabTake` | src/memory/slab.c:48-54 | the page's words become those with the list's head taken |
| `KernelMemory.Kernel.SlabCreate` | src/memory/slab.c:15-46 | a page of the lowest free frame is mapped to itself and filled; it fails exactly when no frame is free, and faults only when its own page cannot be mapped |
| `KernelMemory.Kernel.BuildList` | src/memory/slab.c:35-41 | the loop links all objects, last one first |
| `KernelMemory.Kernel.FindOpen` | src/memory/slab.c:58-62 | the loop ends at the first slab of the list with a free object, or at none |
| `KernelMemory.Kernel.SlabAlloc` | src/memory/slab.c:56-72 | takes from the first slab with a free object, else from a fresh page, with the exact new state in each case; all blocks keep their place and contents |
| `KernelMemory.Kernel.FindLink` | src/memory/slab.c:88-90 | the unlink loop always finds the link that holds the slab |
| `KernelMemory.Kernel.SlabFree` | src/memory/slab.c:74-94 | the object leads its page's free list, or with its page's last live object the page is unlinked and its frame, and no other, freed; all other blocks keep place and contents |
| `LargeSteps.RegionCheckExact` | src/memory/heap.c:44-51 | the 32-bit region check agrees with the true sum exactly when the block's true end stays below 4 GiB, or at a full region for a size that wraps to one page |
| `LargeSteps.RegionCheckWraps` | src/memory/heap.c:44-48 | a request of 1 GiB that the wrapped check accepts although it cannot fit |
| `LargeSteps.RegionCheckSafe` | src/memory/heap.c:44-51 | up to 0x2FFFEFF8 bytes the check is right, wherever the cursor is |
| `LargeSteps.RegionNumbers` | src/memory/heap.c:44-51 | when it is right the check rejects exactly the blocks that do not fit, and page count and new cursor are the true ones |
| `LargeSteps.TruePages` | src/memory/heap.c:44-45 | the pages of a large block hold its header and size bytes, and less than a page more |
| `LargeSteps.LaidAll` | src/memory/heap.c:53-60 | a run of pages is laid in full exactly when there are enough free frames for pages and page tables, and else lacks at most its last page |
| `LargeSteps.LaidShort` | src/memory/heap.c:55-57 | frames run out in the loop only when pages and tables need more frames than are free |
| `LargeSteps.ReachedOnce` | src/memory/heap.c:53-60 | the number of pages that get a frame and a table before frames run out is determined by the state at the start |
| `LargeSteps.LayEnds` | src/memory/heap.c:53-66 | laying a run takes one frame for each page gone over and those of the new tables; all are laid exactly when frames suffice, and the frames taken become the block's then and belong to nobody otherwise |
| `LargeSteps.TornFreesZero` | src/memory/heap.c:74-80 | for the missing last page of a torn block `paging_get_physical` gives 0, so that kfree would free frame 0 |
| `KernelMemory.Kernel.LayPages` | src/memory/heap.c:53-60 | the loop lays one frame per page, as many as the free frames allow, and stops early only when none is left |
| `KernelMemory.Kernel.KmallocLarge` | src/memory/heap.c:42-67 | a block of exactly the needed pages at the cursor when region and frames suffice, null when they do not, and the two ways it goes wrong when only the last table is missing; the frames used afterwards are those before, the block's and the new tables', and a failing call leaves exactly the frames it took to nobody |
| `KernelMemory.Kernel.KfreeLarge` | src/memory/heap.c:69-83 | the block's frames, and no others, are free again, its pages are unmapped, directory and stray frames unchanged, all other blocks keep place and contents |
| `KernelMemory.Kernel.Kmalloc` | src/memory/heap.c:85-105 | every pointer returned is to a block that was not live, large enough for the request, less than twice as large above 16 bytes and less than a page larger above 2048, and no other block becomes live; the frames taken are that block's; all other blocks keep place and contents, however the call ends; whether it fails, and whether failing leaves frames to nobody, is known from the state before |
| `HeapCalls.LargeStrands` | src/memory/heap.c:47-60 | a large request succeeds exactly if the region has room and frames suffice, and a failing one takes frames in vain exactly if the region has room and some frame was free |
| `KernelMemory.Kernel.Kfree` | src/memory/heap.c:107-123 | frees exactly the block that the pointer was returned for, with exactly its frames, and no other block dies; freeing null changes nothing |
| `KernelMemory.Kernel.StoreInBlock` | src/memory/heap.c:85-105 | an owner's store into its block changes no bookkeeping and no other block, and is read back |
| `HeapCalls.BinOf` | src/memory/heap.c:87-102 | the bin chosen is the smallest whose objects are large enough |
| `Isolation.BlocksApart` | src/memory/heap.c:85-105 | any two live blocks occupy disjoint address ranges |
| `Isolation.PhysicallyApart` | src/memory/heap.c:85-105 | nor do two words of live blocks share a physical word after translation |
| `Isolation.OwnerOfWord` | src/memory/heap.c:18-26 | no word of a live block lies in a page table, a slab header, a free-list link or a large header |
| `Isolation.BlockTranslates` | src/memory/heap.c:53-66 | every word of a live block is mapped, to the frame recorded for it |
| `Isolation.KeptReadsSame` | src/memory/heap.c:85-123 | what the program reads in a block is the same after any call that allocates or frees others |
| `Isolation.TagDecides` | src/memory/heap.c:112-122 | for every live pointer the first word of its page is the large magic exactly for large blocks, and otherwise the second word names the cache that served it |
| `Isolation.NextIsAligned` | src/memory/heap.c:18-20 | a slab's next pointer is 0 or page-aligned and so never the magic |
| `Isolation.PtrFindsBlock` | src/memory/heap.c:112-121 | masking a live pointer to its page finds its block again |
| `Isolation.StoredInv` | src/memory/heap.c:85-105 | a store into a live kmalloc block keeps the invariant and every other block |
| `KernelMemory.Kernel.AllocFreeAlloc` | src/tests/test_heap.c:39-51 | for every size up to 2048 and every valid state, freeing a block and asking for the size again gives the same address |
| `Reuse.OpenUndone` | src/memory/slab.c:56-85 | taking from a slab that stays listed and freeing again restores the whole state |
| `Reuse.FreshUndone` | src/memory/slab.c:64-93 | a slab made and returned leaves its list as it was and its frame the lowest free one |
| `Reuse.SameAgain` | src/tests/test_heap.c:39-51 | so the next allocation of the size repeats the first, in both cases |
| `Ownership.FramesPartitioned` | src/memory/heap.c:42-123 | the used frames are exactly the disjoint union of boot frames, page tables, slab pages, large blocks, thread stacks and the frames left to nobody |
| `Ownership.FramesUsedOnce` | src/memory/slab.c:15-94 | no frame is table of two slots, on two slab lists, or in two runs of pages |
| `Ownership.SlabBalance` | src/memory/slab.c:31-43 | on every listed slab the free list is acyclic with the counted length, live plus free is the capacity, and some object is live |
| `Ownership.IdleCacheEmpty` | src/tests/test_slab.c:73-87 | a cache has an empty slab list exactly when it has no live object |
| `Ownership.RunPlaced` | src/tests/test_thread.c:46-63 | every large block and every stack lies in its region, and the page after each stack is in the region and not mapped |
| `Ownership.RunsApart` | src/tests/test_thread.c:46-63 | no two of them overlap, nor does one reach into the guard page of another |
| `MemoryRuns.RunOrphans` | src/memory/heap.c:55-57 | over every run of calls the frames that belong to nobody are those there were and those that failing calls left; no page table is ever freed |
| `MemoryRuns.OrphansExactly` | src/memory/heap.c:53-60 | from a state without stray frames there are some after a run if and only if a call of the run was made in a state in which, by the free objects, frames and page tables of that state, it had to fail with frames taken |
| `MemoryRuns.NothingStray` | src/memory/heap.c:42-123 | without such a call, the used frames are exactly boot frames, page tables, slab pages, large blocks and stacks |
| `MemoryRuns.SucceedsNeverStrands` | src/memory/heap.c:42-123 | a run in which every call succeeds has no such call |
| `MemoryRuns.LiveExactly` | src/memory/heap.c:85-123 | after every run the live blocks are exactly those of the start and those handed out by kmalloc and `thread_create_sized`, but for the ones freed since |
| `MemoryRuns.NothingLeaks` | src/memory/heap.c:69-123 | when every block of the start and every block handed out is freed by a later call, and no call took frames in vain, exactly the boot frames and the page tables are used |
| `MemoryRuns.RunKeeps` | src/memory/heap.c:85-123 | over every run all blocks but those freed or written keep place and contents |
| `MemoryRuns.RunReads` | src/memory/heap.c:85-123 | what the program stored in a block it reads there after every run that neither frees nor writes the block |
| `ThreadSteps.ThreadWritten` | src/tasks/thread.c:63-81 | filling in a new thread's structure keeps the invariant and every other block |
| `ThreadSteps.StackAdopt` | src/tasks/thread.c:55-65 | the laid pages become the thread's stack, with the page above unmapped |
| `ThreadSteps.FailureMapsTopFrame` | src/tasks/thread.c:60-61 | the entry made from the frame allocator's failure value translates to the topmost frame of the address space |
| `ThreadSteps.FailureMapped` | src/tasks/thread.c:60-61 | with all frames used, mapping the failure value changes one page, to the topmost frame, if its slot has a table, and nothing otherwise; no frame is taken |
| `ThreadSteps.OverrunStep` | src/tasks/thread.c:58-62 | once frames have run out every further turn of the loop does that and leaves the pages laid before alone |
| `ThreadSteps.TopPageWalk` | src/tasks/thread.c:67-68 | the first store to the stack finds the last frame laid, the topmost frame, or no page, exactly as pages laid and tables decide |
| `ThreadSteps.CreateAccounts` | src/tasks/thread.c:51-62 | creating a thread takes frames for its structure's slab, its stack and page tables; only a creation that fails leaves frames to nobody, namely those of the stack or of the slab that could not be made |
| `ThreadSteps.CreateServes` | src/tasks/thread.c:51-62 | creating a thread succeeds exactly if the pool has a structure and the free frames suffice for it, the stack and their tables; a failing creation takes frames in vain exactly if a frame was left for the stack, or for a slab page that could not be mapped |
| `ThreadSteps.CreateLive` | src/tasks/thread.c:51-83 | the blocks that become live are the structure, as soon as the pool gives one, and the stack if the creation succeeds |
| `ThreadSteps.CreateTaken` | src/tasks/thread.c:51-62 | the frames taken are those of what becomes live and the ones left to nobody |
| `ThreadSteps.TornStackFrees` | src/tasks/thread.c:90-96 | for each missing page of a torn thread's stack `thread_destroy` would free the topmost frame, or frame 0 where no table is |
| `ThreadSteps.OneStack` | src/tasks/thread.c:63-64 | no two stacks belong to one thread structure |
| `KernelMemory.Kernel.FillStack` | src/tasks/thread.c:65-76 | the top of the stack gets the trampoline's address and four zeros below it |
| `KernelMemory.Kernel.LayStackPages` | src/tasks/thread.c:58-62 | the loop lays frames while there are any and maps the failure value after that, each page in turn |
| `KernelMemory.Kernel.TearThread` | src/tasks/thread.c:63-83 | without enough frames the thread is set up on the topmost frame if the top page's slot has a table, and the first store faults otherwise |
| `KernelMemory.Kernel.ThreadCreateSized` | src/tasks/thread.c:42-84 | a new structure with id, stack base, pages, entry and stack pointer set, and a stack of its own, exactly when the pool and the frames suffice; when frames run short a page fault exactly if the top page's slot has no table at the end, else a thread whose missing pages map the topmost frame or nothing; all blocks keep place and contents, and every frame taken is accounted for |
| `KernelMemory.Kernel.ThreadDestroy` | src/tasks/thread.c:86-98 | the stack's frames and, with the last structure of its page, that page's frame are free again and no others; directory and stray frames unchanged; all other blocks keep place and contents |
| `ThreadPlaces.StacksAreApart` | src/tests/test_thread.c:46-63 | stacks and saved stack pointers of live threads never overlap |
| `ThreadPlaces.MadeIsPrepared` | src/tasks/thread.c:65-77 | read through the page walk, a new thread's stack and stack pointer are what its first switch expects |
| `ThreadPlaces.MadeHasFields` | src/tasks/thread.c:63-81 | and its structure holds id, stack base, state ready, no next thread, entry point and page count at their places |
| `KernelMemory.Kernel.StoreOwn` | src/tasks/thread.h:17-26 | a thread's store to its stack or to its structure, the two words that record the stack excepted, changes one word of memory and keeps the invariant |
| `ThreadMemory.OwnStored` | src/tasks/thread.h:17-26 | such a store keeps the whole invariant and every block of others, so the calls' promises hold between threads that run |
| `ThreadMemory.ImageStored` | src/tasks/scheduler.c:6-30 | a store to the kernel image, where the boot thread's structure and stack are, keeps the whole invariant and every block; the page directory is excepted |
| `ThreadMemory.PartyStoredReads` | src/tasks/thread.h:17-26 | after any such store exactly that one among the words of all threads reads differently |
| `ThreadMemory.StackPlaceOf` | src/tasks/thread.c:55-77 | the stack that a thread was created with and its `esp` field, which the switch works on, consist of words of its own |
| `ThreadMemory.WritesFollow` | src/tasks/context_switch.asm:11-27 | over any number of such stores the flat words that the switching of threads is proved on stay those read through the page tables |
| `ThreadMemory.WritesAllowed` | src/tasks/context_switch.asm:11-27 | and they change no stack or `esp` field of another thread, as the runs of threads require |
| `ThreadMemory.SwitchFollows` | src/tasks/context_switch.asm:11-27 | the stores of a whole switch, away from a created thread or from the boot thread, made through the page tables, keep the memory stack's invariant and lead to the flat words of the specified switch |
| `Ticks.SleepTicksExact` | src/tasks/thread.c:104-105 | the tick count of a sleep is the duration over 10 rounded up, exactly for durations up to 42949662 ms |
| `Ticks.SleepTooLong` | src/tasks/thread.c:104-105 | the next duration sleeps for no tick |
| `Ticks.BeforeWraps` | src/tasks/scheduler.c:58 | a thread counts as asleep exactly when tick minus deadline, modulo 2^32, is at least 2^31 |
| `Ticks.BeforeIsBefore` | src/tasks/scheduler.c:57-58 | within 2^31 ticks of the deadline the wrapped comparison is the true one |
| `Ring.FirstRunnable` | src/tasks/scheduler.c:48-71 | the walk picks the first thread after the running one that is neither terminated nor asleep |
| `Ring.YieldKeepsOrder` | src/tasks/scheduler.c:41-88 | the ring stays one cycle: read from the thread that yielded, the old ring in its old order without the destroyed threads |
| `Ring.YieldKeepsEntries` | src/tasks/scheduler.c:41-88 | a yield changes no entry but the one it brings to the front, which becomes ready if it was blocked |
| `Ring.ReapedAre` | src/tasks/scheduler.c:50-56 | a thread is destroyed exactly when it is terminated and the walk passes it |
| `RingRuns.YieldIds` | src/tasks/scheduler.c:48-77 | a yield takes the destroyed threads from the ring, once each, and no others |
| `RingRuns.StepWellFormed` | src/tasks/scheduler.c:33-77 | yields, additions and state changes keep every thread on the ring once or destroyed once |
| `RingRuns.RunKeepsThreads` | src/tasks/scheduler.c:33-88 | the same over every run |
| `RingRuns.YieldMovesCloser` | src/tasks/scheduler.c:48-77 | each yield strictly decreases the ring distance of a runnable thread |
| `RingRuns.BoundedWaiting` | src/tasks/scheduler.c:33-88 | on every run a thread that stays runnable runs within its ring distance plus the number of later additions, in yields |
| `RingRuns.ThreadIds` | src/tasks/thread.c:78 | the ids that the counter gives, from 1 on, are distinct and not the boot thread's 0 for exactly up to 2^32 - 1 creations |
| `RingRuns.CreatedAreNew` | src/tasks/thread.c:12 | so a created thread that is added for the first time is new to the scheduler, as the runs above presume |
| `RingSafety.StaysExactly` | src/tasks/scheduler.c:73-77 | the running thread keeps the processor exactly when no other can run; otherwise the next one is ready or running |
| `RingSafety.NeverRunsBlocked` | src/tasks/scheduler.c:29-77 | with the idle thread on the ring, after any run a yield leaves a ready or running thread in front and takes the processor from a blocked or terminated one |
| `RingSafety.NoEarlyWake` | src/tasks/thread.c:101-109 | a thread that sleeps up to 42949662 ms is not chosen before start plus ms / 10 rounded up, over every run and across counter wrap-around |
| `RingSafety.WakesInTime` | src/tasks/scheduler.c:58-70 | a sleeper is runnable from its deadline on for 2^31 ticks, and exactly when the wrapped difference is below 2^31 |
| `RingSafety.DeadNeverRuns` | src/tasks/thread.c:28-30 | a terminated thread that was switched away from never runs again |
| `Scheduler.Scheduler.Initialize` | src/tasks/scheduler.c:18-31 | the ring starts with the boot thread running and the idle thread behind it |
| `Scheduler.Scheduler.Add` | src/tasks/scheduler.c:33-39 | the thread is linked in right after the running one, the rest unchanged |
| `Scheduler.Scheduler.Walk` | src/tasks/scheduler.c:45-71 | the pointer walk stops at the specified thread, unlinks and destroys exactly the terminated threads passed, and leaves a single cycle |
| `Scheduler.Scheduler.Yield` | src/tasks/scheduler.c:41-87 | the linked ring after a yield is the specified sequence, and the destroyed threads are the specified ones |
| `Scheduler.Scheduler.Sleep` | src/tasks/thread.c:101-109 | the running thread is blocked until its wake tick and yields |
| `Scheduler.Scheduler.Exit` | src/tasks/thread.c:28-30 | the running thread is marked terminated and yields |
| `ContextSwitch.Machine.ContextSwitch` | src/tasks/context_switch.asm:11-27 | the instructions save four registers below the return address, note the stack pointer where the first argument says and load everything from where the second says |
| `ContextSwitch.SwitchEffect` | src/tasks/context_switch.asm:11-27 | the call leaves on the old stack exactly what resuming it needs, and writes nowhere else but to the old `esp` field |
| `ContextSwitch.SwitchStores` | src/tasks/context_switch.asm:11-27 | the call stores eight words: seven below the stack pointer and the stack pointer itself in the old `esp` field |
| `ThreadRuns.StepInv` | src/tasks/context_switch.asm:11-27 | every event keeps each suspended thread's registers on its own stack |
| `ThreadRuns.RunInv` | src/tasks/context_switch.asm:11-27 | the same over every run of any number of threads |
| `ThreadRuns.PreparedGets` | src/tasks/thread.c:65-77 | a prepared stack holds zeroed registers and the trampoline as return address |
| `ThreadRuns.RunLeaves` | src/tasks/context_switch.asm:11-27 | over every run a thread that is not switched to keeps its registers and its stack |
| `ThreadRuns.Resumes` | src/tasks/context_switch.asm:11-27 | over every run a thread resumes with the registers, stack pointer and return address of its last switch away |
| `ThreadRuns.FirstSwitch` | src/tasks/thread.c:67-77 | the first switch into a new thread lands in the trampoline with zeroed registers and an empty stack |
| `Spinlock.StepExclusive` | src/tasks/spinlock.c:32-44 | each machine step of any core keeps mutual exclusion and the meaning of the lock word |
| `Spinlock.AlwaysExclusive` | src/tasks/spinlock.c:32-44 | over every interleaving at most one core holds a lock, and its word is 1 exactly while one does |
| `Spinlock.OneHolder` | src/tasks/spinlock.c:27-44 | from the initial state on, over every interleaving, no two cores hold a lock, and a held lock's word is 1 |
| `Spinlock.UnlockExactly` | src/tasks/spinlock.c:40-44 | after a release interrupts are off while another lock is held if and only if a release that restores "on" leaves no other lock held in its context |
| `Spinlock.OffExactly` | src/tasks/spinlock.c:4-44 | over every interleaving interrupts are off throughout every hold if and only if all releases of the run meet that condition |
| `Spinlock.HeldMeansOff` | src/tasks/spinlock.c:4-44 | when they do, interrupts are off on a core as long as it holds a lock, and it never waits for a lock that it holds, not even one taken by the code it interrupted |
| `Spinlock.NestedMeansOff` | src/tasks/spinlock.c:4-44 | nested releases always do |
| `Spinlock.FlagRestored` | src/tasks/spinlock.c:4-44 | code that has released in such an order all it acquired has its interrupt flag back, whatever interrupts came in between |
| `Spinlock.AcquireRun` | src/tasks/spinlock.c:32-38 | the three steps of an acquire on a free lock end with the lock held, interrupts off and the old flag saved |
| `Spinlock.NotNestedUnsafe` | src/tasks/spinlock.c:40-44 | a run with releases in the order of the acquires that has interrupts on while a lock is held |
| `Transcripts.WriteAppears` | src/io/terminal.c:139-150 | text without line breaks appears as written from the cursor on, wrapped into rows of 80, and nothing before the cursor changes |
| `Transcripts.LinesAppear` | src/io/terminal.c:77-98 | for every text and cursor, the rows written are the lines between its breaks, wrapped at 80 columns, the row in which a line ends filled up with blanks; what was before the cursor stays and nothing is shown after the text |
| `Transcripts.StringIsLines` | src/io/terminal.c:141-150 | every string is such lines with breaks between them |
| `Transcripts.LineBreak` | src/io/terminal.c:79-86 | a line break takes the cursor to column 0 of the next row, from column 0 too, and changes no cell that is there |
| `Transcripts.BackBlanks` | src/io/terminal.c:115-139 | a backspace leaves the cursor one cell back on a blank and changes no other cell; at the top left corner it does nothing |
| `Transcripts.PlayBlank` | src/io/terminal.c:77-139 | over any edits nothing is shown from the cursor on |
| `Transcripts.HighWater` | src/io/terminal.c:77-98 | the number of rows grows exactly when the cursor goes below the last one |
| `Transcripts.RowsReached` | src/io/terminal.c:43-139 | over any edits the transcript has one row more than the highest row the cursor has been on |
| `Transcripts.WindowPlace` | src/io/terminal.c:43-139 | the screen begins 24 rows above the highest row ever reached, or at the first row |
| `Transcripts.GrownScreen` | src/io/terminal.c:43-62 | a new row below a full screen moves every row up by one and blanks the last |
| `Terminals.Terminal.Scroll` | src/io/terminal.c:43-62 | the loops move rows 1 to 24 up by one and clear the last, exactly when the cursor is below the screen |
| `Terminals.Terminal.PutChar` | src/io/terminal.c:77-98 | the screen is still the window of the transcript with the character put, which the rows above describe |
| `Terminals.Terminal.Shows` | src/io/terminal.c:77-98 | the cells of the screen before the cursor are the last ones of the transcript before its cursor, and the rest is blank if nothing follows there |
| `Terminals.Terminal.Reset` | src/io/terminal.c:64-73 | cursor in the top left corner, every cell blank |
| `Terminals.Terminal.Backspace` | src/io/terminal.c:115-139 | the screen is still the window of the transcript with the last cell blanked, or nothing happens at the top left corner |
| `Terminals.Terminal.WriteString` | src/io/terminal.c:141-150 | the screen is still the window of the transcript with the string written |
| `Keyboard.CapsLockIdle` | src/io/keyboard.c:89-99 | Caps Lock changes the character of no key |
| `Keyboard.LettersFound` | src/io/keyboard.c:17-53 | the keys of the letters give small letters without Shift and capital ones with it |
| `Keyboard.DigitsFound` | src/io/keyboard.c:17-34 | the keys of the digits give the digits |
| `Keyboard.TypedEchoed` | src/io/keyboard.c:109-135 | after every key the line on the screen, from its first cell to the cursor, is the input buffer, through wrapping, scrolling and backspace |
| `Keyboard.Session` | src/io/keyboard.c:55-136 | the same after every sequence of keys and commands |
| `Keyboard.SessionTypes` | src/io/keyboard.c:55-136 | after every sequence of keys the buffer is the line that their characters make: each appended unless 127 are held, the last dropped by a backspace, nothing for code 0; the screen shows it, nothing follows it, nothing before the line changes until Enter, and Shift is on exactly if a shift key was pressed and none released since |
| `Keyboard.PlainLine` | src/io/keyboard.c:130-135 | up to 127 plain characters make a line as they are |
| `Keyboard.BackspaceUndoes` | src/io/keyboard.c:109-120 | a backspace undoes the character before it unless the line was full |
| `Keyboard.EnterRuns` | src/shell/commands.c:23-77 | Enter runs the command of exactly the line typed, and the lines it prints stand below that line, or alone on the cleared screen |
| `Keyboard.Editor.Type` | src/io/keyboard.c:109-135 | buffer and screen change as specified, from the backspace key on, and the buffer becomes the old line after one more character |
| `Keyboard.Editor.Handle` | src/io/keyboard.c:55-136 | buffer, modifiers and screen change as specified for every scancode, and the buffer becomes the old line after the key's character by the tables |
| `Keyboard.Editor.LineOnScreen` | src/io/keyboard.c:109-135 | the characters of the input buffer are the last ones on the screen before the cursor |

## Left out

- KernelMemory.Kernel.ThreadCreateSized: the topmost frame, which the code writes when frames run out, is modelled as memory, which it need not be.
- KernelMemory.Kernel.LayStackPages: the loop is written in two parts, with and without frames; the failing call that ends the first part is made again by the second.
- KernelMemory.Kernel.Kfree: is not given the pointer of a block that lacks its last page; `LargeSteps.TornFreesZero` says what it would free.
- KernelMemory.Kernel.ThreadDestroy: is not given a thread whose stack lacks pages, see `ThreadSteps.TornStackFrees`; reads the structure's page count once, not in every turn of the loop.
- Scheduler.Scheduler.Yield: logs the destroyed threads instead of calling `thread_destroy`; that call is `KernelMemory.Kernel.ThreadDestroy`, on thread structures in memory.
- Scheduler.Scheduler.Walk: a thread found blocked is made ready after the loop, not in it.
- Ring.YieldKeepsOrder: a yield is one step; a timer tick between the release of the scheduler lock and the switch (src/tasks/scheduler.c:79-87) is not modelled.
- Keyboard.Editor.Handle: a command is a function, given with each key, from the line to its output and to whether it clears the screen first; keys that the GUI takes are not modelled.
- RingRuns.CreatedAreNew: which thread is added when is a premise; the scheduler's ring and the thread structures in memory are two models.
- Keyboard.Session: output of other threads in the middle of a line is no event of the run; it would part the line on the screen from the buffer.
- ThreadMemory.SwitchFollows: that the boot thread's structure and stack lie in the kernel image is a premise, not derived from the link layout.
- ThreadMemory.WritesFollow: what a new stack holds besides the words prepared in it is not related to the flat words of the switching threads.
- Transcripts.WriteAppears: colours, formatted printing and the hardware cursor are not modelled.
- Spinlock.AlwaysExclusive: sequentially consistent steps; no store buffer, and code that sets the interrupt flag by itself while it holds no lock is not modelled.
- Paging.MappedCoherent: the TLB is filled by program accesses only; speculative fills while a new table is being cleared, and caches of directory entries, are not modelled.
- Paging.PagingUnit.Read: accesses are whole aligned words.
- `slab_cache_init` with other object sizes than the kernel's nine caches.
- The frame buffer region, the GUI, PCI, serial port, PIT programming, interrupt and segment tables: device set-up without state to keep.
- Shell commands, string formatting, CPU identification and the kernel's own tests: display only.
