# Memory stack, console and transmit ring of the kernel, verified

A model in Dafny 4.11 of a small 32-bit kernel's memory management, with its text console, its number
printer and the transmit ring of its network driver. `dafny verify dfyconfig.toml` checks everything.

The memory stack is three layers, each on top of the one before, and each proved on the code of its own
layer:

* **Frames** (`phy_mm.dfy`, `frame_runs.dfy`): the page frame allocator, a descending stack for single
  frames beside a first-fit search for runs, over a map with one bit per frame.
* **Pages** (`paging.dfy`, `virt_mm.dfy`, `mmu.dfy`): two-level paging as section 4.3 of the Intel 64 and
  IA-32 manual, volume 3A, defines it. `Translate` is the walk as a function of physical memory. The code
  in `mmu.dfy` never touches a table directly: each load and store of an entry goes through that walk, by way
  of the directory's last entry, which maps the directory to itself. `VirtualMemory.Resolve` is the
  processor's walk on the array of physical words, and is proved to be `Walk`.
* **Heap** (`heap_chain.dfy`, `heap_runs.dfy`, `heap_memory.dfy`, `heap_steps.dfy`, `kmalloc.dfy`,
  `heap_clients.dfy`): the first-fit heap with its five-word headers in the clients' own memory. `HeapChain`
  is the block list as a value; `KernelHeap` is the code, which reads and writes words of memory only.

Between pages and heap stand `flat_memory.dfy`, `flat_runs.dfy` and `heap_space.dfy`: they prove that the
pages `mmap` lays end to end behave as one flat, non-aliasing array of words. `KernelHeap` runs on that
array, and every word that it reads or writes is a page walk in `VirtualMemory`, down to the array of
physical words. So the heap theorems hold of the whole stack and not of an idealised memory. `boot.dfy` puts
the layers together: from the directory that boot.s leaves and a free pool to a heap that works.

The smaller parts are `vga.dfy` (the console as a window onto an endless terminal), `kstdlib.dfy` (`itoa`
against a parser), `kstring.dfy` (the copy loops that both rest on) and `tx_ring.dfy` (driver and card as
interleaved steps on one ring, and as code). `words.dfy`, `bytes.dfy` and `arithmetic.dfy` hold what they share.

Words are 4 bytes. Heap addresses in specifications count words from the heap's start, page numbers are
addresses divided by 4096, and frame f is the page at physical address 4096 f. Ghost parameters of methods
(`ghost i`, `ghost p`) only say which block an address belongs to.

## What the code does differently from what it says

* `include/phy-mm.h` and the disabled tests expect a freed single frame to be handed out again. `hwpfree`
  always refuses a single frame, because the stack pointer is never past the last slot
  (`FrameRuns.ExclusiveGiveBack`, `FrameRuns.AllocFreeRoundTrip`, `FrameRuns.ExclusiveRuns`).
* `kmalloc` speaks of 16-byte alignment. Headers are 20 bytes; `HeapChain.PayloadAligned`: a payload
  in fresh pages is never aligned, and one in an existing block only if its header is at a word 3 modulo 4.
  It also speaks of saving 128 bytes where it splits from 256 on (`HeapChain.WasteBounded`).
* `kfree` adds the sizes of two blocks that merge and leaves the header between them behind. The block is then
  smaller than its room by whole headers: `HeapChain.Conservation` is the exact account.
* `_lpa` keeps 10 bits of page offset and not 12: `VirtMM.LpaIsWalkIff`. The driver puts `_lpa` of a buffer
  into its descriptors, so that is right only for buffers in the first quarter of a page.
* `munmap` starts at page 1. Page 0 keeps its entry, which then points at a frame that is free. Of a single
  page nothing is given back: `VirtMM.MmapMunmap`, `VirtMM.MunmapOne`.
* `itoa` does not pad the lower half of a 64-bit value: `KStdlib.RoundTrip` says for which values and bases
  that shows, `KStdlib.DecimalCounterexample` is one.
* The wait in `add_tx_buffer` cannot end when driver and card agree on the length of the ring. It is then
  entered only when all slots are in flight, and tail and head registers are equal, which the card reads as an
  empty ring (section 3.4 of the Intel 8254x Software Developer's Manual): `TxRing.FullRingIsStuck`.
* Driver and card do not agree. The driver wraps after `txqueue_n + 1` descriptors, and the card is told
  `2 * txqueue_n` bytes, which is an eighth of `txqueue_n` descriptors. On a ring of more than one slot completions
  are in order in every run if and only if the lengths are the same (`TxRing.InOrderIffSamePeriod`). As written
  there is a run in which the card completes a descriptor twice (`TxRing.OutOfOrder`, `TxRing.LengthsAsWritten`).
* The ring is allocated for `txqueue_n` descriptors. The first call after `txqueue_n` of them writes behind it:
  `TxRing.PeriodAsWritten`.

## Model

| member | source | states |
|---|---|---|
| PhyMM.ByteSetGet | include/phy-mm.h:52-64 | setting a bit of a byte and reading it back: that bit changes and no other |
| PhyMM.ByteGetIsBit | include/phy-mm.h:52-55 | the bit read is bit k of the byte, lowest first |
| PhyMM.StoreBit | include/phy-mm.h:60-64 | a bit store adds or removes exactly one frame of the set of used frames |
| PhyMM.FrameAllocator.constructor | kernel/mm/phy-mm.c:111-133 | the pool is at most 128 frames, all free, the stack at its top |
| PhyMM.BitmapBehindStack | kernel/mm/phy-mm.c:130-131 | the bitmap starts behind the last stack slot if and only if that slot is not 256-byte aligned; so whenever the frame count is a multiple of 8 |
| PhyMM.BitmapCovers | include/phy-mm.h:43 | every frame has its bit inside the bitmap if and only if the frame count is a multiple of 8 |
| PhyMM.FrameAllocator.InUse | include/phy-mm.h:52-55 | the bit read is 1 exactly when the frame is in the used set |
| PhyMM.FrameAllocator.SetInUse | include/phy-mm.h:60-64 | the used set gains or loses that frame only |
| PhyMM.FrameAllocator.FindRun | kernel/mm/phy-mm.c:36-47 | the scan reaches n exactly when there is a run of n free frames, and then stands behind the lowest one |
| PhyMM.FrameAllocator.PopFree | kernel/mm/phy-mm.c:24-34 | the highest free frame at or below the stack pointer, which moves to just below it |
| PhyMM.FrameAllocator.TakeRun | kernel/mm/phy-mm.c:36-51 | the lowest run of n free frames, all n marked |
| PhyMM.Chosen | kernel/mm/phy-mm.c:24-50 | the chosen frame was free and no higher one in reach was; the chosen run was free and no lower one was |
| PhyMM.FrameAllocator.Hwpalloc | kernel/mm/phy-mm.c:15-53 | NULL and no change on an empty stack, otherwise the chosen frames and the state that marks them |
| PhyMM.FreeAnswers | kernel/mm/phy-mm.c:56-87 | for every address and count: INVALID_MEM exactly outside the pool, DOUBLE_FREE exactly for a pool frame not in use, BORKD_MEM exactly for a single used one, no change with any of these, and otherwise exactly the n frames go |
| PhyMM.FrameAllocator.Hwpfree | kernel/mm/phy-mm.c:56-87 | the code gives the answers of FreeAnswers and leaves the state that it describes |
| FrameRuns.ExclusiveTake | kernel/mm/phy-mm.c:15-53 | no frame that is handed out belongs to a live grant, and the map stays the union of the grants |
| FrameRuns.RefusedKeeps | kernel/mm/phy-mm.c:60-74 | what hwpfree refuses leaves the map and every grant |
| FrameRuns.GiveBackIff | kernel/mm/phy-mm.c:56-87 | for any address and count the map stays the union of the grants if and only if the call is refused, frees nothing, or names exactly a live grant |
| FrameRuns.ExclusiveGiveBack | kernel/mm/phy-mm.c:56-87 | giving back a grant of n >= 2 frames clears exactly those; giving back one changes nothing |
| FrameRuns.SecondFreeRefused | kernel/mm/phy-mm.c:65-68 | a second free of the same frames is a DOUBLE_FREE and changes nothing |
| FrameRuns.ExclusiveRuns | kernel/mm/phy-mm.c:15-87 | over every run of both calls, refused ones on any address among them, grants stay disjoint and make up the map, and each single frame lowers the stack for good |
| FrameRuns.AllocFreeRoundTrip | kernel/mm/phy-mm.c:15-87 | allocating and freeing is the identity, unless n is 1: then it is refused and the frame stays in use |
| Paging.RecursiveWalk | kernel/mm/virt-mm.c:31-38 | the walk of the computed table address ends at word j of table d exactly when entry d is present |
| Paging.RecursiveStore | kernel/mm/virt-mm.c:51 | a store there sets that table entry and nothing else |
| Paging.DirectoryStore | kernel/mm/virt-mm.c:43-47 | pde_table[d] reaches the directory's own word d |
| Paging.BootDirectoryOK | kernel/asm/boot.s:97-155 | the start-up directory meets the invariant: it maps itself, names itself, and tables are distinct |
| Paging.WithTableFrame | kernel/mm/virt-mm.c:43-47 | a new table is a frame that was free and that no other table uses |
| Paging.OrAligned | kernel/mm/virt-mm.c:45-51 | an entry made from a page-aligned address is that address plus 3 |
| Paging.WithTableOK | kernel/mm/virt-mm.c:43-47 | the invariant survives a new table |
| Paging.WithTableKeeps | kernel/mm/virt-mm.c:43-47 | a new table changes translations only under itself and at its own window page |
| Paging.WithEntryOK | kernel/mm/virt-mm.c:51 | storing an entry makes its page translate to the frame in it, or fail, and keeps the self-map |
| Paging.WithEntryKeeps | kernel/mm/virt-mm.c:51-82 | and changes the translation of no other page |
| Paging.MapFrameExtends | kernel/mm/virt-mm.c:28-58 | mapfr keeps present entries, settled translations and all memory outside tables, and takes frames for tables only |
| Paging.ExtendsTrans | kernel/mm/virt-mm.c:97-98 | such extensions compose |
| Paging.MapRangeExtends | kernel/mm/virt-mm.c:97-98 | the whole loop of mmap is such an extension |
| Paging.MapRangeTranslates | kernel/mm/virt-mm.c:97-98 | after the loop page p + i translates to frame f + i |
| VirtMM.MmapMaps | kernel/mm/virt-mm.c:87-101 | mmap maps its pages in order to consecutive frames that were free and are no tables, and the map grows by these and the new tables exactly |
| VirtMM.EnoughSpare | kernel/mm/virt-mm.c:93-98 | one spare frame for each missing table is enough for the loop never to run dry |
| VirtMM.EnoughFrames | kernel/mm/virt-mm.c:87-98 | frames for the data, and after them a spare one for each missing table, are enough for mmap |
| VirtMM.MissingAtMost | kernel/mm/virt-mm.c:32-47 | at most one table is missing for each 4 MiB that the pages touch |
| VirtMM.SpareServes | kernel/mm/phy-mm.c:18-34 | a spare frame can be popped, and exactly one spare frame goes |
| VirtMM.LpaIsWalkIff | include/virt-mm.h:18-24 | _lpa is the page walk if and only if the page offset is below 0x400 |
| VirtMM.LpaFrame | include/virt-mm.h:18-24 | _lpa always names the right frame |
| VirtMM.MapFrameEntry | kernel/mm/virt-mm.c:51 | mapfr of a page-aligned address leaves it plus 3 in the table entry |
| VirtMM.UnmapEntry | kernel/mm/virt-mm.c:82 | umapfr leaves 0 there |
| VirtMM.UnmapRangeOK | kernel/mm/virt-mm.c:112-113 | exactly the pages of the loop stop translating |
| VirtMM.MunmapOK | kernel/mm/virt-mm.c:103-117 | munmap of pages on consecutive frames frees those frames, keeps the tables, and unmaps all pages but the first; a single page is refused and stays |
| VirtMM.MunmapOne | kernel/mm/virt-mm.c:103-117 | munmap of one mapped page of the pool answers BORKD_MEM and changes nothing |
| VirtMM.MmapMunmap | kernel/mm/virt-mm.c:87-117 | after both, the frames in use are those before and the new tables, and for one page its frame; page 0 still translates, to a frame that is free unless it is the only one; the other pages do not |
| VirtMM.MunmapTwice | kernel/mm/virt-mm.c:103-117 | a second munmap of the same pages answers DOUBLE_FREE and changes no frame and no translation |
| Words.PagesFor | kernel/mm/virt-mm.c:91 | lengths are rounded up to the next page and no further |
| Mmu32.VirtualMemory.Store | kernel/mm/virt-mm.c:45-51 | a store changes the one physical word that the walk names |
| Mmu32.VirtualMemory.EnsureTable | kernel/mm/virt-mm.c:43-47 | the directory entry is present afterwards, by a fresh frame where it was not |
| Mmu32.VirtualMemory.SetEntry | kernel/mm/virt-mm.c:38-82 | the store through the self-map lands in the intended table entry |
| Mmu32.VirtualMemory.Mapfr | kernel/mm/virt-mm.c:28-58 | the machine becomes the specified one, whose walk of lgaddr gives hwaddr's frame |
| Mmu32.VirtualMemory.Umapfr | kernel/mm/virt-mm.c:61-85 | the page stops translating; without a table nothing happens |
| Mmu32.VirtualMemory.Mmap | kernel/mm/virt-mm.c:87-101 | the loop makes the mapping that MmapMaps describes |
| Mmu32.VirtualMemory.LogicalToPhysical | include/virt-mm.h:18-24 | the macro, read through the self-map, gives the specified value |
| Mmu32.VirtualMemory.UnmapPages | kernel/mm/virt-mm.c:112-113 | the loop from page 1 unmaps pages 1 to n - 1 |
| Mmu32.VirtualMemory.Munmap | kernel/mm/virt-mm.c:103-117 | status and machine of the specified munmap |
| FlatMemory.StoreIsFlat | kernel/mm/kmalloc.c:55-58 | a store to word i of the heap's pages through the walk is a store to word i of flat memory |
| FlatMemory.LoadIsFlat | kernel/mm/kmalloc.c:55-58 | the same for loads |
| FlatMemory.GrownWindow | kernel/mm/kmalloc.c:55-58 | after mmap at the heap's end all its pages are mapped, to distinct in-use frames that are no tables |
| FlatMemory.GrowthIsFlat | kernel/mm/kmalloc.c:55-58 | and no word of the heap has changed |
| FlatMemory.EnoughToGrow | kernel/mm/kmalloc.c:55-58 | the same count of frames lets the heap's pages grow |
| FlatMemory.EmptyWindow | kernel/mm/kmalloc.c:242-244 | a heap of no pages is such flat memory wherever the tables are in order |
| FlatRuns.HeapIsFlatMemory | kernel/mm/kmalloc.c:47-92 | over every run of stores and growths the heap's pages stay mapped without aliasing, and each word holds what was last stored to it |
| HeapSpaces.HeapSpace.Get | kernel/mm/kmalloc.c:39-41 | a load by address through the walk reads the heap word |
| HeapSpaces.HeapSpace.Set | kernel/mm/kmalloc.c:79-89 | a store by address through the walk changes that heap word only |
| HeapSpaces.HeapSpace.Extend | kernel/mm/kmalloc.c:55-58 | mmap at the end makes the heap longer and leaves its words |
| HeapSpaces.HeapSpace.EnoughExtends | kernel/mm/kmalloc.c:55-58 | the count of frames is enough for the machine that the heap runs on |
| HeapChain.FirstFit | kernel/mm/kmalloc.c:33-45 | the first free block that is large enough, none before it being so |
| HeapChain.GrowthExact | kernel/mm/kmalloc.c:51-52 | a growth is whole pages, more than size + 20 bytes and at most a page more |
| HeapChain.RoundedUp | kernel/mm/kmalloc.c:98 | sizes are rounded up to the next multiple of 16 and no further |
| HeapChain.MallocGrowth | kernel/mm/kmalloc.c:47-117 | when kmalloc grows the heap, the request, its 20-byte header and at most a page are added, and the block handed out is all of it; on the first call the same for the larger of request and minimum |
| HeapChain.FirstCall | kernel/mm/kmalloc.c:101-108 | the first call's recursion finds the block just appended, so it is one level deep |
| HeapChain.MallocOK | kernel/mm/kmalloc.c:94-144 | kmalloc keeps tiling, no two free neighbours and the account; the result is large enough, and every live block stays |
| HeapChain.MallocFirstFit | kernel/mm/kmalloc.c:109-117 | the heap grows exactly when no free block is large enough, otherwise the first such block is taken |
| HeapChain.WasteBounded | kernel/mm/kmalloc.c:118-138 | a block from the list wastes at most 276 bytes, and is split exactly when it would waste more; the free half keeps over 256 bytes |
| HeapChain.PayloadAligned | kernel/mm/kmalloc.c:97-98 | a payload in fresh pages lies 4 bytes past a 16-byte boundary, always; one in an existing block is aligned exactly when that block's header is at a word 3 modulo 4 |
| HeapChain.FreeOK | kernel/mm/kmalloc.c:213-233 | kfree keeps the invariant and ends exactly one live block |
| HeapChain.FreeIsSplice | kernel/mm/kmalloc.c:216-228 | both merges together replace up to three blocks by one |
| HeapChain.FreedIsSum | kernel/mm/kmalloc.c:216-228 | the merged block starts where the first one did, is as large as all of them together, and swallows one header for each free neighbour |
| HeapChain.FreeAccount | kernel/mm/kmalloc.c:216-228 | kfree leaves the sum of all sizes on the list, and each free neighbour is one merge and one block less |
| HeapChain.Conservation | kernel/mm/kmalloc.c:216-228 | sizes and headers on the list plus 5 words for each merge are the whole heap |
| HeapChain.Ordered | kernel/mm/kmalloc.c:33-45 | blocks stand at increasing addresses, each ending before the next begins |
| HeapChain.AllFree | kernel/mm/kmalloc.c:246-265 | a heap with nothing live is one free block |
| HeapChain.InitHeap | kernel/mm/kmalloc.c:239-273 | init_kmalloc leaves one free block for any initial size; for the kernel's own, 0, it has 3062 of 3072 words |
| HeapRuns.MergesCounted | kernel/mm/kmalloc.c:216-228 | over every run the merge count is the number of free neighbours met at the releases |
| HeapRuns.EveryReachableHeap | kernel/mm/kmalloc.c:94-236 | over every run the list tiles the heap, no two neighbours are free, and sizes, 5 words for each block and 5 for each merge made are the whole heap |
| HeapRuns.FreeOneLive | kernel/mm/kmalloc.c:190-236 | freeing a live block takes its address off the live set and no other |
| HeapRuns.FreeAllAnyOrder | kernel/mm/kmalloc.c:246-265 | freeing all that is live in any order leaves one free block, short of the heap by the merged headers |
| HeapMemory.SpliceListed | kernel/mm/kmalloc.c:121-138 | replacing blocks and one back link keeps the doubly linked list in memory |
| HeapMemory.HeaderWords | include/kmalloc.h:34-40 | a header is free flag, one of the two magic numbers, next, prev and size, in this order |
| HeapMemory.PayloadsApart | kernel/mm/kmalloc.c:143 | payloads overlap neither each other nor any header |
| HeapMemory.PlaceContents | kernel/mm/kmalloc.c:121-141 | handing out a block adds one payload to what clients see and changes no byte of another |
| HeapMemory.AppendContents | kernel/mm/kmalloc.c:78-89 | nor does a growth |
| HeapMemory.FreeContents | kernel/mm/kmalloc.c:213-233 | freeing removes one payload and changes no byte of another |
| HeapMemory.PayloadWritten | kernel/mm/kmalloc.c:143 | a client's write inside its payload leaves the list and every other payload alone |
| HeapSteps.SplitListed | kernel/mm/kmalloc.c:122-137 | the stores of a split leave the list with the two halves in memory |
| HeapSteps.SplitWords | kernel/mm/kmalloc.c:122-137 | the new half carries the magic 0xb00bbabe, both halves link to each other, and memory changes nowhere else but in the link back |
| HeapSteps.GrowListed | kernel/mm/kmalloc.c:78-89 | the stores of a growth append a block to the list in memory |
| HeapSteps.GrowLinks | kernel/mm/kmalloc.c:78-89 | the new block carries the magic 0xdeadbeef and is linked from the last |
| HeapSteps.FreeListed | kernel/mm/kmalloc.c:213-233 | the stores of kfree, with both merges, leave the merged list in memory |
| Bytes.LowestFirst | kernel/mm/kmalloc.c:154 | byte accesses see a word's bytes lowest first |
| Kmalloc.KernelHeap.FindFreeBlock | kernel/mm/kmalloc.c:33-45 | the walk along the next words ends, at the first fit or with the last block |
| Kmalloc.KernelHeap.NewBlockspace | kernel/mm/kmalloc.c:47-92 | the list has one free block more, in fresh pages |
| Kmalloc.KernelHeap.Split | kernel/mm/kmalloc.c:121-138 | the block gives way to its two halves |
| Kmalloc.KernelHeap.PlaceBlock | kernel/mm/kmalloc.c:118-141 | a block that was found is split if that pays and marked |
| Kmalloc.KernelHeap.GrowBlock | kernel/mm/kmalloc.c:114-117 | a new block is handed out whole |
| Kmalloc.KernelHeap.EnoughForMalloc | kernel/mm/kmalloc.c:101-117 | kmalloc can be served when the pages it will ask for, none if a free block fits, pass the count of frames |
| Kmalloc.KernelHeap.Kmalloc | kernel/mm/kmalloc.c:94-144 | the code refines first fit on the list, and hands out a payload that nobody had, changing no other |
| Kmalloc.KernelHeap.Kcalloc | kernel/mm/kmalloc.c:146-157 | and every byte asked for is zero |
| Kmalloc.KernelHeap.Krealloc | kernel/mm/kmalloc.c:159-188 | NULL pointer, bad magic, large enough, or moved: the old contents are a prefix of the new payload, the old block is freed, other payloads stay |
| Kmalloc.KernelHeap.CopyBytes | kernel/mm/kmalloc.c:182-184 | the byte loop copies the words of the old payload and writes nothing else |
| Kmalloc.KernelHeap.MergeNext | kernel/mm/kmalloc.c:216-221 | memory after the forward merge |
| Kmalloc.KernelHeap.MergePrev | kernel/mm/kmalloc.c:222-228 | memory after the backward merge, and the block that is left |
| Kmalloc.KernelHeap.Relink | kernel/mm/kmalloc.c:230-233 | memory after both neighbours' links and the flag |
| Kmalloc.KernelHeap.Kfree | kernel/mm/kmalloc.c:190-236 | NULL and bad magic change nothing; otherwise the code refines the merges on the list and takes exactly that payload from the clients |
| Kmalloc.KernelHeap.ClientStore | kernel/mm/kmalloc.c:143 | a client's byte store changes that byte of its payload and nothing else that any client sees |
| Kmalloc.KernelHeap.InitKmalloc | kernel/mm/kmalloc.c:239-273 | the first allocation and its release leave no payload, and the heap that InitHeap describes |
| Boot.BootCanGrow | kernel/mm/virt-mm.c:141-154 | on the boot directory and a free pool of four frames or more the heap can be given its first three pages |
| Boot.InitVirtmm | kernel/mm/virt-mm.c:141-154 | so init_kmalloc runs from there, and leaves a valid heap at 0xd0000000 of one free block with 3062 words |
| HeapClients.Perform | kernel/mm/kmalloc.c:94-236 | each call on the machine is a step of the abstract map from payloads to contents, and the pointer it answers is the address of the payload handed out, kept or moved |
| HeapClients.HeapIsMapped | kernel/mm/kmalloc.c:47-92 | in every state between calls all pages of the heap, up to _heap_size, are mapped to distinct in-use frames that are no tables |
| HeapClients.StepKeeps | kernel/mm/kmalloc.c:94-236 | a step leaves a payload's bytes alone unless it is that payload's own store, and takes them along when krealloc moves it |
| HeapClients.DataSurvives | kernel/mm/kmalloc.c:94-236 | over every run a payload that is not freed stays, wherever krealloc puts it, and each byte reads what was stored there last |
| HeapClients.ZeroUntilStored | kernel/mm/kmalloc.c:146-157 | over every run after kcalloc its bytes read zero until their client stores something else |
| HeapClients.PlacesApart | kernel/mm/kmalloc.c:159-188 | over every run different payloads stay in different places |
| KString.Memcpy | klibc/kstring.c:11-18 | what a forward copy leaves, for every overlap |
| KString.ForwardCopyExact | klibc/kstring.c:11-18 | it is a move if and only if the target does not start inside the source |
| KString.Memmove | klibc/kstring.c:29-39 | a move for every overlap |
| Vga.BlankBelow | kernel/vga/vga.c:60-63 | the terminal is blank below the cursor's row |
| Vga.RowsAboveAreFinal | kernel/vga/vga.c:36-64 | rows above the cursor never change again, so what scrolls away was final |
| Vga.PlainText | kernel/vga/vga.c:51-59 | text fills rows of 80 from the top left corner, the k-th character in row k / 80, column k % 80 |
| Vga.LineBreaks | kernel/vga/vga.c:41-47 | a newline keeps the column, a carriage return the row |
| Vga.TabIsFourBlanks | kernel/vga/vga.c:48-59 | a tab ends where four blanks would, if and only if it starts at column 76 or before |
| Vga.ControlsWriteNothing | kernel/vga/vga.c:41-50 | tab, newline and carriage return write nothing |
| Vga.AsciiIsWhiteOnBlack | kernel/vga/vga.c:6-12 | widened with its sign and or'ed with the colour, a character keeps code and colour if and only if it is ASCII; any other sets the whole colour byte |
| Vga.PutWindow | kernel/vga/vga.c:41-54 | printing a character changes screen and terminal in the same cell |
| Vga.ScrollWindow | kernel/vga/vga.c:60-63 | a scroll moves the window one row down the terminal |
| Vga.Console.BottomRowBlank | kernel/vga/vga.c:60-63 | the cursor stays in rows 0 to 23 and columns 0 to 79, and row 24 is blank |
| Vga.Console.ScreenIs | kernel/vga/vga.c:6-64 | cell 80 r + c shows the terminal r rows below the first not scrolled away, the cursor's row is at most 23, and rows below it are 0x0f20 |
| Vga.Console.Clear | kernel/vga/vga.c:14-24 | afterwards the screen is the window onto an empty terminal |
| Vga.Console.ScrollDown | kernel/vga/vga.c:26-34 | rows move up, the last ones stay |
| Vga.Console.Putchar | kernel/vga/vga.c:36-64 | the screen stays the window onto the terminal that has one character more |
| Vga.UpToNulIs | kernel/vga/vga.c:90-92 | what is printed is all in front of the first NUL, and all of the string if there is none |
| Vga.Console.Print | kernel/vga/vga.c:87-93 | the screen stays the window while exactly that is printed |
| KStdlib.ParseDigits | klibc/kstdlib.c:20-26 | parsing the digits of a number gives the number |
| KStdlib.CharsAre | klibc/kstdlib.c:22-23 | 0 to 9 print as bytes 48 to 57, 10 to 35 as 65 to 90 |
| KStdlib.TextDigits | klibc/kstdlib.c:4-24 | zero prints as byte 48, every value as digits of its base |
| KStdlib.RoundTrip32 | klibc/kstdlib.c:3-31 | below 2^32 parsing inverts itoa, which prints no leading zero |
| KStdlib.RoundTrip64 | klibc/kstdlib.c:16-27 | beyond, if and only if the lower half's digits fill 2^32 |
| KStdlib.RoundTrip | klibc/kstdlib.c:16-27 | for every base: if and only if the value is below 2^32, or the base is 2, 4 or 16 and the lower half at least 2^32 / b |
| KStdlib.RoundTripHex | klibc/kstdlib.c:16-27 | in base 16, if and only if the upper half is zero or the lower at least 2^28 |
| KStdlib.RoundTripDecimal | klibc/kstdlib.c:16-27 | in base 10, if and only if the value is below 2^32 |
| KStdlib.DecimalCounterexample | klibc/kstdlib.c:16-27 | 4294967296 prints as 1 |
| KStdlib.DigitsAtMost | klibc/kstdlib.c:20-26 | a number has at most n digits if and only if it is below b^n |
| KStdlib.DigitsFit | klibc/kstdlib.c:11-24 | 32 digits are enough below 2^32, and for every value from base 4 on |
| KStdlib.FillDigits | klibc/kstdlib.c:20-26 | the loop puts the digits in front of those already there |
| KStdlib.ToFront | klibc/kstdlib.c:28 | the overlapping copy brings them to the front unharmed |
| KStdlib.Itoa | klibc/kstdlib.c:3-31 | the result is a C string of exactly the specified text |
| TxRing.TailBusyIffFull | driver/eth/intel_8254x.c:134-138 | the driver finds its slot busy exactly when all slots are in flight |
| TxRing.FillOK | driver/eth/intel_8254x.c:141-179 | writing a descriptor overwrites none in flight |
| TxRing.PublishOK | driver/eth/intel_8254x.c:181-186 | the wrap and the tail register follow the submission count |
| TxRing.CompleteOK | driver/eth/intel_8254x.c:136-138 | a completion is of the oldest submission and frees its slot |
| TxRing.StepOK | driver/eth/intel_8254x.c:131-187 | every step of driver or card keeps the ring's invariant |
| TxRing.EveryInterleaving | driver/eth/intel_8254x.c:131-187 | in every interleaving the submissions in flight are consecutive, at most n, unharmed in slot k mod n, and complete once each in order |
| TxRing.InOrderIffSamePeriod | driver/eth/intel_8254x.c:181-186 | completions are in order and on the ring in every run if and only if the card's length is the driver's period, or there is one slot only |
| TxRing.OutOfOrder | driver/eth/intel_8254x.c:181-186 | a run for any two different lengths: a shorter card completes a descriptor twice, a longer one leaves the ring |
| TxRing.LengthsAsWritten | driver/eth/intel_8254x.c:270 | with the length that the card is given there is a run in which it completes more descriptors than were submitted |
| TxRing.FullRingIsStuck | driver/eth/intel_8254x.c:136-138 | a driver that finds its slot busy waits forever |
| TxRing.TailCounts | driver/eth/intel_8254x.c:181-184 | after k calls the tail is k modulo the period |
| TxRing.PeriodAsWritten | driver/eth/intel_8254x.c:181-193 | of m calls all write inside the allocated slots if and only if m is at most txqueue_n |
| TxRing.SubmittedOK | driver/eth/intel_8254x.c:131-187 | a call that returns appends one submission in slot k mod n and moves the tail just past it |
| TxRing.NewDescDescribes | driver/eth/intel_8254x.c:141-179 | the descriptor has the buffer's address, twice its length in 16 bits, RS always, IFCS and EOP exactly on request, and no other command bit |
| TxRing.SentAsCalled | driver/eth/intel_8254x.c:131-187 | in every interleaving the k-th descriptor sent, and the k-th completed, carries the arguments of the k-th call |
| TxRing.TransmitQueue.AddTxBuffer | driver/eth/intel_8254x.c:131-187 | the code is that submission, for every call on a ring that is not full, and leaves in the slot a descriptor of its arguments |
| TxRing.TransmitQueue.CompleteOne | driver/eth/intel_8254x.c:136-138 | the card's side as code |

## Left out

- The accessed and dirty bits that the processor sets in entries as it walks, the flushes of cached translations, CR0 and CR3, interrupts, and boot.s as code: only the directory that boot.s leaves is modelled.
- Serial port, interrupt controller, PCI, EEPROM and device registers other than the two ring registers; `printk`, `__dump_heap`, debug output and the build of the heap for Linux.
- The walk over the boot loader's memory map in `init_phymm` (the constructor starts from the region it picks), and `maphwdev`, whose window advances by pages where it should by bytes.
- Running out of frames. `hwpalloc` checks for an empty stack only and neither search ends otherwise, so callers must leave it a frame or a run (`CanServe`, `CanMap`, `CanMmap`, `CanMalloc`). `VirtMM.EnoughFrames`, and on it `EnoughToGrow`, `EnoughExtends` and `EnoughForMalloc`, reduce `CanMmap` and `CanMalloc` to a request that the allocator can serve and a count of frames against missing tables.
- Lengths so large that 32-bit sums wrap; page counts from 2^16 on, which `hwpalloc` truncates.
- PhyMM.FrameAllocator.constructor: frame counts that are not a multiple of 8, for which the bitmap is too short (`BitmapCovers`), and pools that do not start on a page boundary.
- Where the allocator's stack and bitmap lie in physical memory: they are arrays of their own, apart from the frames.
- The other entries of a new page table, which `mapfr` does not clear: nothing is claimed about pages under a table that was missing (`Settled`).
- Mappings in the table window, and of the page that holds pde_table itself.
- PhyMM.FrameAllocator.Hwpfree: runs that reach past the pool are excluded, since the code would clear bits behind the map.
- Kmalloc.KernelHeap.Kfree: a pointer whose header is stamped but is no longer a block's, such as a second free after a merge, is excluded; C99 leaves it undefined (7.20.3.2). The same holds for Krealloc, and for moving a block that was freed.
- KString.Memmove: the buffer is an array of its own and not a block from `kmalloc`.
- KStdlib.Itoa: the buffer has 33 bytes and comes from the language's own allocation; the code asks `kcalloc` for 32 and writes index 32. Bases 2 and 3 need more than that buffer for some 64-bit values, which are excluded; bases outside 2 to 36 have no digits.
- TxRing.TransmitQueue.AddTxBuffer: the wait itself, which by FullRingIsStuck ends at once or never; the translation of the buffer's address by `_lpa`; a buffer at physical address 0, which the code takes for an empty slot; the fields that are always zero.
- TxRing.EveryInterleaving: both sides have one period, as InOrderIffSamePeriod requires; with two, only the order of completions is judged. What a card does with a tail outside its own ring is taken to be what it does inside: it works on until head meets tail.
- Vga.Console.Putchar: `serial_putchar`; the 8-bit width of the cursor, which stays far below 255.
- Kcalloc: the product of its arguments is taken not to wrap.
