/** The memory that the heap code runs on: pages mapped by mmap, every access through the page walk. */
module HeapSpaces {
  import opened Words
  import opened PhyMM
  import opened Paging
  import opened VirtMM
  import opened FlatMemory
  import opened Mmu32

  class HeapSpace {
    const vm: VirtualMemory
    const base: Word          // _heap_start
    ghost var pages: nat      // how many pages are mapped from there on
    ghost var flat: seq<Word> // what they hold

    ghost predicate Valid()
      reads this, vm, vm.phys, vm.frames, vm.frames.stack, vm.frames.bitmap
    {
      && vm.Valid()
      && base % PAGE == 0
      && Window(vm.State(), base / PAGE, pages)
      && flat == View(vm.State(), base / PAGE, pages)
    }

    constructor (vm: VirtualMemory, base: Word)
      requires vm.Valid() && base % PAGE == 0 && base / PAGE <= WINDOW_PAGE
      ensures Valid() && this.vm == vm && this.base == base && flat == []
    {
      this.vm, this.base, pages, flat := vm, base, 0, [];
      EmptyWindow(vm.State(), base / PAGE);
    }

    /** The pages that the heap can still be given. */
    ghost predicate CanExtend(k: nat)
      reads this, vm, vm.phys, vm.frames, vm.frames.stack, vm.frames.bitmap
      requires Valid()
    {
      k < 0x1_0000 && CanGrow(vm.State(), base / PAGE, pages, k)
    }

    /** What a caller can count instead: the pages are free to map, and there are frames for them and their tables. */
    ghost predicate EnoughFor(k: nat)
      reads this, vm, vm.phys, vm.frames, vm.frames.stack, vm.frames.bitmap
      requires Valid()
    {
      && k < 0x1_0000 && MappableRange(vm.State(), base / PAGE, pages + k)
      && Enough(vm.State(), base / PAGE + pages, k)
    }

    lemma EnoughExtends(k: nat)
      requires Valid() && EnoughFor(k)
      ensures CanExtend(k)
    {
      hide Window, MmuOK, CanGrow, Enough;
      WindowOK(vm.State(), base / PAGE, pages);
      EnoughToGrow(vm.State(), base / PAGE, pages, k);
    }

    /** The heap ends below the table window. */
    lemma Bounded()
      requires Valid()
      ensures |flat| == 1024 * pages && base % 4 == 0 && base + 4 * |flat| <= TABLE_WINDOW
    {
      hide MmuOK, View, DataFrame, Translate;
      EndOf(base, base / PAGE, pages);
    }

    /** The word at addr, which is word i of the heap. */
    function Get(addr: Word, ghost i: nat): (w: Word)
      reads this, vm, vm.phys, vm.frames, vm.frames.stack, vm.frames.bitmap
      requires Valid() && addr == base + 4 * i && i < |flat|
      ensures w == flat[i]
    {
      hide Window, MmuOK, Walk, Translate, WordAddr, View, At;
      AddrWord(base, i);
      LoadIsFlat(vm.State(), base / PAGE, pages, i);
      vm.Load(addr)
    }

    method Set(addr: Word, ghost i: nat, w: Word)
      requires Valid() && addr == base + 4 * i && i < |flat|
      modifies this, vm.phys
      ensures Valid() && pages == old(pages)
      ensures flat == old(flat)[i := w]
    {
      hide Window, MmuOK, Walk, Translate, StoreWord, WordAddr, View;
      AddrWord(base, i);
      WordAddrSplit(base / PAGE, i);
      StoreIsFlat(vm.State(), base / PAGE, pages, i, w);
      vm.Store(addr, w);
      flat := flat[i := w];
      WindowOK(vm.State(), base / PAGE, pages);
    }

    /** mmap at the end of the heap. */
    method Extend(addr: Word, nbytes: nat)
      requires Valid() && nbytes % PAGE == 0 && CanExtend(nbytes / PAGE) && addr == base + 4 * |flat|
      modifies this, vm.phys, vm.frames, vm.frames.bitmap
      ensures Valid() && pages == old(pages) + nbytes / PAGE
      ensures old(flat) <= flat && |flat| == |old(flat)| + nbytes / 4
    {
      hide Window, MmuOK, Translate, CanMmap;
      GrowthIsFlat(vm.State(), base / PAGE, pages, nbytes / PAGE);
      vm.Mmap(addr, nbytes);
      pages := pages + nbytes / PAGE;
      flat := View(vm.State(), base / PAGE, pages);
    }
  }

  /** Page numbers and addresses of the heap's end. */
  lemma EndOf(base: nat, first: nat, n: nat)
    requires base % PAGE == 0 && first == base / PAGE && first + n <= WINDOW_PAGE
    ensures base % 4 == 0 && base + 4 * (1024 * n) <= TABLE_WINDOW
  {
    assert base == 4 * (first * 1024);
  }
}
