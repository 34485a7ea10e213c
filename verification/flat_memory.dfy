/** The heap's pages as flat memory: what the kernel heap assumes, delivered by the page tables. */
module FlatMemory {
  import opened Words
  import opened PhyMM
  import opened Paging
  import opened VirtMM

  /** A frame that holds heap data: of the pool, in use, and no page table. */
  ghost predicate DataFrame(v: Mmu, f: nat)
    requires Sized(v)
  {
    InPool(v.frames, f) && f in v.frames.used && !IsTable(v, f)
  }

  /** Pages first to first + n - 1 are mapped, each to a data frame of its own. */
  ghost predicate Window(v: Mmu, first: nat, n: nat) {
    && MmuOK(v) && MappableRange(v, first, n)
    && (forall q: nat :: first <= q < first + n ==> Translate(v, q).Some? && DataFrame(v, Translate(v, q).value))
    && (forall q: nat, r: nat :: first <= q < r < first + n ==> Translate(v, q) != Translate(v, r))
  }

  /** Word i of the window: word i % 1024 of the frame behind its page. */
  ghost function WordOf(v: Mmu, first: nat, n: nat, i: nat): Word
    requires Window(v, first, n) && i < 1024 * n
  {
    At(v.m, FrameAt(v, first, n, i / 1024), i % 1024)
  }

  /** The frame behind page k of the window. */
  ghost function FrameAt(v: Mmu, first: nat, n: nat, k: nat): (f: Frame)
    requires Window(v, first, n) && k < n
    ensures Sized(v) && first + k < WINDOW_PAGE && Translate(v, first + k) == Some(f) && DataFrame(v, f)
  {
    Translate(v, first + k).value
  }

  /** The memory behind the window. */
  ghost function View(v: Mmu, first: nat, n: nat): (flat: seq<Word>)
    requires Window(v, first, n)
    ensures |flat| == 1024 * n
    ensures forall i: nat :: i < 1024 * n ==> flat[i] == WordOf(v, first, n, i)
  {
    hide Window, WordOf;
    seq(1024 * n, i requires 0 <= i < 1024 * n => WordOf(v, first, n, i))
  }

  // ---------------------------------------------------------------------------
  // A store
  // ---------------------------------------------------------------------------

  /** The address of word i. */
  function WordAddr(first: nat, i: nat): nat {
    first * PAGE + 4 * i
  }

  lemma WordAddrSplit(first: nat, i: nat)
    ensures WordAddr(first, i) / PAGE == first + i / 1024
    ensures WordAddr(first, i) % PAGE / 4 == i % 1024 && WordAddr(first, i) % 4 == 0
  {
    var q, r := i / 1024, i % 1024;
    assert WordAddr(first, i) == PAGE * (first + q) + 4 * r;
    PageOffset(first + q, 4 * r);
  }

  /** A store to a data frame touches no table: every translation stays. */
  lemma DataStoreKeepsTables(v: Mmu, f: Frame, j: Index, w: Word)
    requires MmuOK(v) && !IsTable(v, f)
    ensures var v' := v.(m := Put(v.m, f, j, w));
      && MmuOK(v')
      && (forall d: nat :: d < 1024 ==> Pde(v', d) == Pde(v, d))
      && (forall q: nat :: q < 0x10_0000 ==> Translate(v', q) == Translate(v, q))
  {
    var v' := v.(m := Put(v.m, f, j, w));
    assert forall d: nat :: d < 1024 ==> Pde(v', d) == Pde(v, d);
    forall q: nat | q < 0x10_0000
      ensures Translate(v', q) == Translate(v, q)
    {
      assert Present(Pde(v, q / 1024)) ==> IsTable(v, FrameOf(Pde(v, q / 1024)));
    }
  }

  lemma FramesApart(v: Mmu, first: nat, n: nat, j: nat, k: nat)
    requires Window(v, first, n) && j < n && k < n && j != k
    ensures FrameAt(v, first, n, j) != FrameAt(v, first, n, k)
  {
    assert Translate(v, first + j) != Translate(v, first + k);
  }

  lemma StoreKeepsWindow(v: Mmu, first: nat, n: nat, i: nat, w: Word)
    requires Window(v, first, n) && i < 1024 * n
    ensures var v' := v.(m := Put(v.m, FrameAt(v, first, n, i / 1024), i % 1024, w));
      && Window(v', first, n)
      && (forall k: nat :: k < n ==> FrameAt(v', first, n, k) == FrameAt(v, first, n, k))
  {
    var f := FrameAt(v, first, n, i / 1024);
    var v' := v.(m := Put(v.m, f, i % 1024, w));
    DataStoreKeepsTables(v, f, i % 1024, w);
    SameTables(v, v');
    hide Translate, MmuOK, IsTable;
    assert forall q: nat :: first <= q < first + n ==> Translate(v', q) == Translate(v, q);
  }

  /** Storing word i of the window through the page walk is storing word i of flat memory. */
  lemma StoreIsFlat(v: Mmu, first: nat, n: nat, i: nat, w: Word)
    requires Window(v, first, n) && i < 1024 * n
    ensures WordAddr(first, i) < MEMORY_LIMIT && Walk(v, WordAddr(first, i)).Some?
    ensures var v' := StoreWord(v, WordAddr(first, i), w);
      Window(v', first, n) && View(v', first, n) == View(v, first, n)[i := w]
  {
    hide Window, DataFrame, Translate;
    WordAddrSplit(first, i);
    var f := FrameAt(v, first, n, i / 1024);
    var v' := v.(m := Put(v.m, f, i % 1024, w));
    StoreKeepsWindow(v, first, n, i, w);
    forall k: nat | k < 1024 * n
      ensures WordOf(v', first, n, k) == if k == i then w else WordOf(v, first, n, k)
    {
      if k / 1024 != i / 1024 {
        FramesApart(v, first, n, k / 1024, i / 1024);
      }
      assert k == k / 1024 * 1024 + k % 1024 && i == i / 1024 * 1024 + i % 1024;
    }
  }

  lemma AddrWord(base: nat, i: nat)
    requires base % PAGE == 0
    ensures base + 4 * i == WordAddr(base / PAGE, i)
  {
  }

  lemma WindowOK(v: Mmu, first: nat, n: nat)
    requires Window(v, first, n)
    ensures MmuOK(v)
  {
  }

  /** Loading word i of the window through the page walk is reading word i of flat memory. */
  lemma LoadIsFlat(v: Mmu, first: nat, n: nat, i: nat)
    requires Window(v, first, n) && i < 1024 * n
    ensures var va := WordAddr(first, i);
      && va < MEMORY_LIMIT && va % 4 == 0 && Walk(v, va).Some?
      && At(v.m, Translate(v, va / PAGE).value, va % PAGE / 4) == View(v, first, n)[i]
  {
    hide Window, DataFrame, Translate;
    WordAddrSplit(first, i);
    var f := FrameAt(v, first, n, i / 1024);
  }

  // ---------------------------------------------------------------------------
  // Growth
  // ---------------------------------------------------------------------------

  lemma TablesAfter(v: Mmu, v': Mmu, f: nat)
    requires Sized(v) && Sized(v') && TablesKept(v, v')
    ensures IsTable(v', f) ==> IsTable(v, f) || NewTable(v, v', f)
  {
  }

  lemma MappedIsSettled(v: Mmu, q: nat)
    requires Sized(v) && q < WINDOW_PAGE && Translate(v, q).Some?
    ensures Settled(v, q)
  {
  }

  /** A mapped page survives mmap of other pages: same frame, still no table. */
  lemma GrowthKeepsPage(v: Mmu, p: nat, k: nat, q: nat)
    requires MmuOK(v) && CanMmap(v, p, k) && q < WINDOW_PAGE && !(p <= q < p + k)
    requires Translate(v, q).Some? && DataFrame(v, Translate(v, q).value)
    ensures Translate(Mmap(v, p, k), q) == Translate(v, q) && DataFrame(Mmap(v, p, k), Translate(v, q).value)
  {
    hide TablesDistinct, PoolOK, Translate, Mmap, CanMapRange, AllocFrames, Chosen;
    MmapMaps(v, p, k);
    MappedIsSettled(v, q);
    TablesAfter(v, Mmap(v, p, k), Translate(v, q).value);
  }

  lemma GrowthAddsPage(v: Mmu, p: nat, k: nat, q: nat)
    requires MmuOK(v) && CanMmap(v, p, k) && p <= q < p + k && q < WINDOW_PAGE
    ensures Translate(Mmap(v, p, k), q) == Some(Chosen(v.frames, k) + q - p)
    ensures DataFrame(Mmap(v, p, k), Chosen(v.frames, k) + q - p) && Chosen(v.frames, k) + q - p !in v.frames.used
  {
    hide TablesDistinct, PoolOK, Translate, Mmap, CanMapRange, AllocFrames, Chosen, IsTable;
    MmapTranslates(v, p, k, q);
    MmapDataFrames(v, p, k, Chosen(v.frames, k) + q - p);
    MmapUsed(v, p, k, Chosen(v.frames, k) + q - p);
    MmapKeeps(v, p, k);
  }

  ghost predicate CanGrow(v: Mmu, first: nat, n: nat, k: nat) {
    Window(v, first, n) && MappableRange(v, first, n + k) && CanMmap(v, first + n, k)
  }

  /** The empty heap is a window wherever the tables are in order. */
  lemma EmptyWindow(v: Mmu, first: nat)
    requires MmuOK(v) && first <= WINDOW_PAGE
    ensures Window(v, first, 0) && View(v, first, 0) == []
  {
  }

  /** Frames that can be counted let the window grow. */
  lemma EnoughToGrow(v: Mmu, first: nat, n: nat, k: nat)
    requires Window(v, first, n) && MappableRange(v, first, n + k) && MmuOK(v) && Enough(v, first + n, k)
    ensures CanGrow(v, first, n, k)
  {
    hide Window, MmuOK, CanMmap, Enough;
    EnoughFrames(v, first + n, k);
  }

  /** The machine after mmap of k pages at the end of the window. */
  ghost function Grown(v: Mmu, first: nat, n: nat, k: nat): (v': Mmu)
    requires CanGrow(v, first, n, k)
    ensures MmuOK(v') && Sized(v')
  {
    Mmap(v, first + n, k)
  }

  lemma GrownPage(v: Mmu, first: nat, n: nat, k: nat, q: nat)
    requires CanGrow(v, first, n, k) && first <= q < first + n + k
    ensures q < WINDOW_PAGE
    ensures var t := Translate(Grown(v, first, n, k), q);
      && t.Some? && DataFrame(Grown(v, first, n, k), t.value)
      && (if q < first + n then t == Translate(v, q)
          else t.value !in v.frames.used && t.value == Chosen(v.frames, k) + q - (first + n))
  {
    hide TablesDistinct, PoolOK, Translate, Mmap, CanMmap, AllocFrames, Chosen, IsTable;
    if q < first + n {
      GrowthKeepsPage(v, first + n, k, q);
    } else {
      GrowthAddsPage(v, first + n, k, q);
    }
  }

  lemma GrownWindow(v: Mmu, first: nat, n: nat, k: nat)
    requires CanGrow(v, first, n, k)
    ensures Window(Grown(v, first, n, k), first, n + k)
    ensures TablesKept(v, Grown(v, first, n, k)) && DataKept(v, Grown(v, first, n, k))
  {
    hide MmuOK, Translate, Mmap, CanMmap, AllocFrames, Chosen, IsTable;
    var v' := Grown(v, first, n, k);
    MmapKeeps(v, first + n, k);
    forall q: nat | first <= q < first + n + k
      ensures q < WINDOW_PAGE && Translate(v', q).Some? && DataFrame(v', Translate(v', q).value)
    {
      GrownPage(v, first, n, k, q);
    }
    forall q: nat, r: nat | first <= q < r < first + n + k
      ensures Translate(v', q) != Translate(v', r)
    {
      GrownPage(v, first, n, k, q);
      GrownPage(v, first, n, k, r);
    }
  }

  ghost predicate GrowsTo(v: Mmu, v': Mmu, first: nat, n: nat, k: nat) {
    CanGrow(v, first, n, k) && v' == Grown(v, first, n, k) && Window(v, first, n) && Window(v', first, n + k)
  }

  lemma GrownWord(v: Mmu, v': Mmu, first: nat, n: nat, k: nat, i: nat)
    requires GrowsTo(v, v', first, n, k)
    requires i < 1024 * n
    ensures WordOf(v', first, n + k, i) == WordOf(v, first, n, i)
  {
    hide MmuOK, Translate, IsTable, CanGrow, Grown, Window;
    GrownWindow(v, first, n, k);
    GrownPage(v, first, n, k, first + i / 1024);
  }

  lemma GrownWords(v: Mmu, v': Mmu, first: nat, n: nat, k: nat)
    requires GrowsTo(v, v', first, n, k)
    ensures View(v, first, n) <= View(v', first, n + k)
  {
    hide Window, CanGrow, Grown, WordOf;
    forall i: nat | i < 1024 * n
      ensures View(v', first, n + k)[i] == View(v, first, n)[i]
    {
      GrownWord(v, v', first, n, k, i);
    }
  }

  /** mmap at the end of the window extends flat memory and changes none of its words. */
  lemma GrowthIsFlat(v: Mmu, first: nat, n: nat, k: nat)
    requires CanGrow(v, first, n, k)
    ensures Window(v, first, n) && Window(Grown(v, first, n, k), first, n + k)
    ensures View(v, first, n) <= View(Grown(v, first, n, k), first, n + k)
  {
    hide Window, MmuOK, Grown, CanMmap, View;
    GrownWindow(v, first, n, k);
    GrownWords(v, Grown(v, first, n, k), first, n, k);
  }
}
