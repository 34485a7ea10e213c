/** From the page directory that boot.s leaves to a working heap. */
module Boot {
  import opened Words
  import opened PhyMM
  import opened Paging
  import opened VirtMM
  import opened FlatMemory
  import opened Mmu32
  import opened HeapSpaces
  import opened HeapChain
  import opened Kmalloc

  const KHEAP_START: Word := 0xd000_0000   // include/kernel.h:36

  /** A pool as init_phymm leaves it: nothing in use, the stack at its top. */
  ghost predicate AllFree(s: Frames) {
    PoolOK(s) && s.used == {} && s.top == s.first + s.count - 1
  }

  /** Three frames at the bottom of a free pool of four or more can be served, and one is spare after them. */
  lemma FirstThree(s: Frames)
    requires AllFree(s) && s.count >= 4
    ensures CanServe(s, 3) && Chosen(s, 3) == s.first
    ensures s.first + 3 in Spare(AllocFrames(s, 3))
  {
    assert FreeRun(s, s.first, 3);
  }

  /** The premise of init_kmalloc holds after start-up: the heap can be given its first three pages. */
  lemma BootCanGrow(v: Mmu, table768: Frame)
    requires Sized(v) && BootDirectory(v, table768) && AllFree(v.frames) && v.frames.count >= 4
    requires !InPool(v.frames, v.pd) && !InPool(v.frames, table768)
    ensures MmuOK(v) && Window(v, 0xd_0000, 0) && CanGrow(v, 0xd_0000, 0, 3)
  {
    hide Translate, CanMapRange, CanServe, Chosen, AllocFrames, Spare, Missing;
    BootDirectoryOK(v, table768);
    EmptyWindow(v, 0xd_0000);
    FirstThree(v.frames);
    MissingAtMost(v, 0xd_0000, 3);
    var spare := Spare(AllocFrames(v.frames, 3));
    SubsetSize({v.frames.first + 3}, spare);
    EnoughToGrow(v, 0xd_0000, 0, 3);
  }

  /** init_virtmm: on the boot directory and a free pool, init_kmalloc runs and leaves 3062 words in one free block. */
  method InitVirtmm(phys: array<Word>, pd: Frame, pdeTable: Word, frames: FrameAllocator, ghost table768: Frame)
    returns (heap: KernelHeap)
    requires phys.Length == PHYS_WORDS && frames.Valid() && phys != frames.stack
    requires AllFree(frames.State()) && frames.count >= 4
    requires BootDirectory(Mmu(phys[..], pd, pdeTable, frames.State()), table768)
    requires !InPool(frames.State(), pd) && !InPool(frames.State(), table768)
    modifies phys, frames, frames.bitmap
    ensures fresh(heap) && heap.Valid() && heap.space.base == KHEAP_START && heap.space.vm.phys == phys
    ensures heap.Clients() == map[] && heap.chain == [Block(0, 3062, true, 1)]
  {
    hide MmuOK, Window, CanGrow, HeapOK, Malloc, Free, BootDirectory, Translate, RoundedWords, AllFree;
    var vm := new VirtualMemory(phys, pd, pdeTable, frames);
    BootCanGrow(vm.State(), table768);
    var space := new HeapSpace(vm, KHEAP_START);
    heap := new KernelHeap(space, 0);
    assert heap.CanMalloc(RoundedWords(11000)) by {
      RoundedEleven();
    }
    heap.InitKmalloc();
    InitHeap(0);
    OneBlock(heap.chain);
  }

  lemma RoundedEleven()
    ensures 4 * RoundedWords(11000) == 11008 && GrowthPages(11008) == 3
  {
  }

  lemma OneBlock(chain: seq<Block>)
    ensures |chain| == 1 ==> chain == [chain[0]]
  {
  }
}
