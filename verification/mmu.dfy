/** The paging code itself: every read or write of a table goes through the page walk. */
module Mmu32 {
  import opened Words
  import opened PhyMM
  import opened Paging
  import opened VirtMM

  class VirtualMemory {
    const phys: array<Word>
    const pd: Frame        // the frame in cr3
    const pdeTable: Word   // the address of pde_table
    const frames: FrameAllocator

    /** Physical memory and the allocator's own arrays are there and apart. */
    ghost predicate Wired()
      reads this, phys, frames, frames.stack, frames.bitmap
    {
      && phys.Length == PHYS_WORDS
      && frames.Valid()
      && phys != frames.stack
    }

    ghost function State(): (v: Mmu)
      reads this, phys, frames, frames.stack, frames.bitmap
      requires Wired()
      ensures Sized(v)
    {
      Mmu(phys[..], pd, pdeTable, frames.State())
    }

    ghost predicate Valid()
      reads this, phys, frames, frames.stack, frames.bitmap
    {
      Wired() && MmuOK(State())
    }

    constructor (phys: array<Word>, pd: Frame, pdeTable: Word, frames: FrameAllocator)
      requires phys.Length == PHYS_WORDS && frames.Valid() && phys != frames.stack
      ensures this.phys == phys && this.pd == pd && this.pdeTable == pdeTable && this.frames == frames
      ensures Wired()
    {
      this.phys, this.pd, this.pdeTable, this.frames := phys, pd, pdeTable, frames;
    }

    /** The walk as the processor does it, on the words of physical memory. */
    function Resolve(va: Word): (pa: Option<Word>)
      reads this, phys, frames, frames.stack, frames.bitmap
      requires Wired()
      ensures pa == Walk(State(), va)
    {
      var pde := phys[pd * 1024 + va / 0x40_0000];
      assert va / 0x40_0000 == va / PAGE / 1024;
      assert phys[..][pd * 1024 + va / 0x40_0000] == pde;
      if !Present(pde) then None
      else
        var pte := phys[FrameOf(pde) * 1024 + va / PAGE % 1024];
        assert phys[..][FrameOf(pde) * 1024 + va / PAGE % 1024] == pte;
        if !Present(pte) then None else Some(FrameOf(pte) * PAGE + va % PAGE)
    }

    function Load(va: Word): (w: Word)
      reads this, phys, frames, frames.stack, frames.bitmap
      requires Wired() && va % 4 == 0 && Walk(State(), va).Some?
      ensures w == At(State().m, Translate(State(), va / PAGE).value, va % PAGE / 4)
    {
      var pa := Resolve(va).value;
      assert pa / 4 == Translate(State(), va / PAGE).value * 1024 + va % PAGE / 4;
      assert phys[..][pa / 4] == phys[pa / 4];
      phys[pa / 4]
    }

    method Store(va: Word, w: Word)
      requires Wired() && va % 4 == 0 && Walk(State(), va).Some?
      modifies phys
      ensures Wired() && State() == StoreWord(old(State()), va, w)
    {
      var pa := Resolve(va).value;
      assert pa / 4 == Translate(State(), va / PAGE).value * 1024 + va % PAGE / 4;
      phys[pa / 4] := w;
      assert phys[..] == old(phys[..])[pa / 4 := w];
      assert frames.State() == old(frames.State());
    }

    /** The first half of mapfr: the table behind directory entry pdeIndex exists from now on. */
    method EnsureTable(pdeIndex: nat)
      requires Valid() && pdeIndex < 1023
      requires Present(Pde(State(), pdeIndex)) || CanServe(frames.State(), 1)
      modifies phys, frames, frames.bitmap
      ensures Valid() && State() == WithTable(old(State()), pdeIndex)
      ensures Present(Pde(State(), pdeIndex))
    {
      hide MmuOK, Translate, Walk, StoreWord, Chosen, AllocFrames, Put;
      ghost var v := State();
      WithTableOK(v, pdeIndex);
      DirectoryStore(v, pdeIndex, 0);
      if !Present(Load(pdeTable + 4 * pdeIndex)) {
        var newTable := frames.Hwpalloc(1);
        AllocatedStore(v, State(), pdeIndex, Or3(newTable));
        Store(pdeTable + 4 * pdeIndex, Or3(newTable));
      }
    }

    /** The store `pte_table[pte_index] = entry` of mapfr and umapfr. */
    method SetEntry(pdeIndex: nat, pteIndex: nat, entry: Word)
      requires Valid() && pdeIndex < 1023 && pteIndex < 1024 && Present(Pde(State(), pdeIndex))
      modifies phys
      ensures Wired() && State() == WithEntry(old(State()), pdeIndex * 1024 + pteIndex, entry)
    {
      hide MmuOK, WithEntry, StoreWord, Walk;
      var pteTable := TABLE_WINDOW + pdeIndex * 0x1000;
      RecursiveStore(State(), pdeIndex, pteIndex, entry);
      Store(pteTable + 4 * pteIndex, entry);
    }

    method Mapfr(hwaddr: Word, lgaddr: Word)
      requires Valid() && Mappable(State(), lgaddr / PAGE) && CanMap(State(), lgaddr / PAGE)
      modifies phys, frames, frames.bitmap
      ensures Valid() && State() == MapFrame(old(State()), hwaddr, lgaddr / PAGE)
    {
      hide Translate, TablesDistinct;
      var pdeIndex := lgaddr / 0x40_0000;
      var pteIndex := lgaddr / 0x1000 % 0x400;
      IndexSplit(lgaddr);
      MapSteps(State(), hwaddr, lgaddr / PAGE);
      EnsureTable(pdeIndex);
      SetEntry(pdeIndex, pteIndex, Or3(hwaddr));
    }

    method Umapfr(lgaddr: Word)
      requires Valid() && Mappable(State(), lgaddr / PAGE)
      modifies phys
      ensures Valid() && State() == Unmap(old(State()), lgaddr / PAGE)
    {
      hide Translate, MmuOK, Walk, StoreWord, WithEntry;
      var pdeIndex := lgaddr / 0x40_0000;
      var pteIndex := lgaddr / 0x1000 % 0x400;
      IndexSplit(lgaddr);
      UnmapOK(State(), lgaddr / PAGE);
      DirectoryStore(State(), pdeIndex, 0);
      if !Present(Load(pdeTable + 4 * pdeIndex)) {
        return;
      }
      SetEntry(pdeIndex, pteIndex, 0);
    }

    method Mmap(addr: Word, length: nat)
      requires Valid() && PagesFor(length) < 0x1_0000
      requires CanMmap(State(), addr / PAGE, PagesFor(length))
      modifies phys, frames, frames.bitmap
      ensures Valid() && State() == VirtMM.Mmap(old(State()), addr / PAGE, PagesFor(length))
    {
      hide MmuOK, MapFrame, CanMap, Translate, AllocFrames, Chosen;
      var pages := (length + 4095) / 4096;
      ghost var v, p := State(), addr / PAGE;
      GrantedOK(v, pages);
      var hwaddr := frames.Hwpalloc(pages);
      ghost var f := Chosen(v.frames, pages);
      for i := 0 to pages
        invariant Valid() && pdeTable == v.self
        invariant CanMapRange(State(), f + i, p + i, pages - i)
        invariant MapRange(State(), f + i, p + i, pages - i) == VirtMM.Mmap(v, p, pages)
      {
        assert (addr + 4096 * i) / PAGE == p + i;
        Mapfr(hwaddr + 4096 * i, addr + 4096 * i);
      }
      MapRangeEnd(State(), f + pages, p + pages);
    }

    /** The entry that _lpa reads through the table window. */
    function TableEntry(d: Index, j: Index): (entry: Word)
      reads this, phys, frames, frames.stack, frames.bitmap
      requires Valid() && Present(Pde(State(), d))
      ensures entry == At(State().m, FrameOf(Pde(State(), d)), j)
    {
      hide MmuOK, Walk, Translate, StoreWord, WithEntry;
      RecursiveStore(State(), d, j, 0);
      Load(TableAddr(d, j))
    }

    /** _lpa */
    function LogicalToPhysical(lgaddr: Word): (hw: nat)
      reads this, phys, frames, frames.stack, frames.bitmap
      requires Valid() && Present(Pde(State(), lgaddr / PAGE / 1024))
      ensures hw == Lpa(State(), lgaddr)
    {
      hide MmuOK, Translate;
      IndexSplit(lgaddr);
      var entry := TableEntry(lgaddr / 0x40_0000, lgaddr / 0x1000 % 0x400);
      entry - entry % 1024 + lgaddr % 1024
    }

    method Munmap(addr: Word, length: nat) returns (status: Status)
      requires Valid() && PagesFor(length) < 0x1_0000 && MappableRange(State(), addr / PAGE, PagesFor(length))
      requires Present(Pde(State(), addr / PAGE / 1024))
      requires VirtMM.Munmap(State(), addr, PagesFor(length)).0 == Ok ==>
                 Lpa(State(), addr) / PAGE + PagesFor(length) <= State().frames.first + State().frames.count
      modifies phys, frames, frames.bitmap
      ensures Wired() && (status, State()) == VirtMM.Munmap(old(State()), addr, PagesFor(length))
    {
      hide MmuOK, Translate, UnmapRange, Lpa, FreeFrames;
      var pages := (length + 4095) / 4096;
      UnmapKeeps(State(), addr / PAGE, pages);
      var hwaddr := LogicalToPhysical(addr);
      UnmapPages(addr, pages);
      status := frames.Hwpfree(hwaddr, pages);
    }

    /** The loop of munmap: it starts at page 1. */
    method UnmapPages(addr: Word, pages: nat)
      requires Valid() && MappableRange(State(), addr / PAGE, pages)
      modifies phys
      ensures Valid() && State() == UnmapRange(old(State()), addr / PAGE + 1, if pages == 0 then 0 else pages - 1)
    {
      hide MmuOK, Translate, Unmap;
      ghost var p, m := addr / PAGE, if pages == 0 then 0 else pages - 1;
      var i := 1;
      while i < pages
        invariant 1 <= i <= m + 1
        invariant Valid() && pdeTable == old(State()).self
        invariant UnmapRange(State(), p + i, m + 1 - i) == UnmapRange(old(State()), p + 1, m)
      {
        UnmapRangeStep(State(), p + i, m + 1 - i);
        assert (addr + 4096 * i) / PAGE == p + i;
        Umapfr(addr + 4096 * i);
        i := i + 1;
      }
      UnmapRangeStep(State(), p + m + 1, 0);
    }
  }

  lemma UnmapRangeStep(v: Mmu, p: nat, n: nat)
    requires MmuOK(v) && p + n < 0x10_0000 && (n > 0 ==> MappableRange(v, p, n))
    ensures n > 0 ==> MmuOK(Unmap(v, p)) && UnmapRange(v, p, n) == UnmapRange(Unmap(v, p), p + 1, n - 1)
    ensures n == 0 ==> UnmapRange(v, p, n) == v
  {
    if n > 0 {
      UnmapOK(v, p);
    }
  }

  /** The loop of munmap changes neither the tables nor the frames. */
  lemma UnmapKeeps(v: Mmu, p: nat, pages: nat)
    requires MmuOK(v) && MappableRange(v, p, pages)
    ensures var v' := UnmapRange(v, p + 1, if pages == 0 then 0 else pages - 1);
      MmuOK(v') && v'.frames == v.frames && forall d: nat :: d < 1024 ==> Pde(v', d) == Pde(v, d)
  {
    if pages > 0 {
      UnmapRangeOK(v, p + 1, pages - 1);
    }
  }

  lemma MapRangeEnd(v: Mmu, f: nat, p: nat)
    requires MmuOK(v)
    ensures CanMapRange(v, f, p, 0) && MapRange(v, f, p, 0) == v
  {
  }

  lemma AllocatedStore(v: Mmu, v': Mmu, d: Index, w: Word)
    requires MmuOK(v) && Sized(v') && v'.m == v.m && v'.pd == v.pd && v'.self == v.self
    ensures var va := v.self + 4 * d;
      && va < MEMORY_LIMIT && va % 4 == 0 && Walk(v', va).Some?
      && StoreWord(v', va, w) == v'.(m := Put(v.m, v.pd, d, w))
  {
    DirectoryStore(v, d, w);
    assert Translate(v', (v.self + 4 * d) / PAGE) == Translate(v, (v.self + 4 * d) / PAGE);
  }
}
