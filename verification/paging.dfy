/** The 32-bit two-level page walk as a function of physical memory, and the effect on it of each table write. */
module Paging {
  import opened Words
  import opened PhyMM
  import Arithmetic

  const PHYS_WORDS := 0x4000_0000   // 2^20 frames of 1024 words
  const TABLE_WINDOW := 0xffc0_0000 // include/kernel.h:30
  const WINDOW_PAGE := 0xf_fc00     // its first page

  /** Physical memory, the directory's frame, the address of pde_table, and the frame allocator. */
  datatype Mmu = Mmu(m: seq<Word>, pd: Frame, self: Word, frames: Frames)

  type Frame = f: nat | f < 0x10_0000

  type Index = j: nat | j < 1024

  function At(m: seq<Word>, f: Frame, j: Index): Word
    requires |m| == PHYS_WORDS
  {
    m[f * 1024 + j]
  }

  /** Storing word j of frame f changes that word and no other. */
  function Put(m: seq<Word>, f: Frame, j: Index, w: Word): (m': seq<Word>)
    requires |m| == PHYS_WORDS
    ensures |m'| == PHYS_WORDS
    ensures forall g: Frame, k: Index :: At(m', g, k) == if g == f && k == j then w else At(m, g, k)
  {
    m[f * 1024 + j := w]
  }

  predicate Present(entry: Word) { entry % 2 == 1 }

  function FrameOf(entry: Word): Frame { entry / PAGE }

  /** entry | 3 */
  function Or3(x: Word): Word { x - x % 4 + 3 }

  ghost predicate Sized(v: Mmu) {
    |v.m| == PHYS_WORDS
  }

  ghost function Pde(v: Mmu, d: nat): Word
    requires Sized(v) && d < 1024
  {
    At(v.m, v.pd, d)
  }

  /** The page walk on page numbers: directory index p / 1024, table index p % 1024. */
  ghost function Translate(v: Mmu, p: nat): (f: Option<nat>)
    requires Sized(v) && p < 0x10_0000
    ensures f.Some? ==> f.value < 0x10_0000
  {
    var pde := Pde(v, p / 1024);
    if !Present(pde) then None
    else
      var pte := At(v.m, FrameOf(pde), p % 1024);
      if !Present(pte) then None else Some(FrameOf(pte))
  }

  /** The page walk on addresses. */
  ghost function Walk(v: Mmu, va: Word): (pa: Option<Word>)
    requires Sized(v)
  {
    match Translate(v, va / PAGE)
    case None => None
    case Some(f) => Some(f * PAGE + va % PAGE)
  }

  /** A word store at an address that translates. */
  ghost function StoreWord(v: Mmu, va: Word, w: Word): Mmu
    requires Sized(v) && Walk(v, va).Some?
  {
    v.(m := Put(v.m, Translate(v, va / PAGE).value, va % PAGE / 4, w))
  }

  // ---------------------------------------------------------------------------
  // The invariant
  // ---------------------------------------------------------------------------

  /** A frame of the pool is marked in use. */
  predicate Claimed(s: Frames, f: nat) {
    InPool(s, f) ==> f in s.used
  }

  ghost predicate TablesDistinct(v: Mmu)
    requires Sized(v)
  {
    && (forall d: nat :: d < 1023 && Present(Pde(v, d)) ==> FrameOf(Pde(v, d)) != v.pd && Claimed(v.frames, FrameOf(Pde(v, d))))
    && (forall d: nat, e: nat :: d < e < 1023 && Present(Pde(v, d)) && Present(Pde(v, e)) ==>
          FrameOf(Pde(v, d)) != FrameOf(Pde(v, e)))
  }

  /** The directory maps itself, pde_table names it, and the tables are distinct claimed frames. */
  ghost predicate MmuOK(v: Mmu) {
    && Sized(v)
    && PoolOK(v.frames)
    && !InPool(v.frames, v.pd)
    && Present(Pde(v, 1023)) && FrameOf(Pde(v, 1023)) == v.pd
    && v.self % PAGE == 0 && v.self < TABLE_WINDOW
    && Translate(v, v.self / PAGE) == Some(v.pd)
    && TablesDistinct(v)
  }

  ghost predicate IsTable(v: Mmu, f: nat)
    requires Sized(v)
  {
    f == v.pd || exists d: nat :: d < 1023 && Present(Pde(v, d)) && FrameOf(Pde(v, d)) == f
  }

  /** The pages whose entry mapfr may set: not the table window, not the page of pde_table. */
  predicate Mappable(v: Mmu, p: nat) {
    p < WINDOW_PAGE && p != v.self / PAGE
  }

  // ---------------------------------------------------------------------------
  // The two table writes
  // ---------------------------------------------------------------------------

  /** mapfr's first half: a directory entry that is not present gets a frame of its own. */
  ghost function WithTable(v: Mmu, d: nat): Mmu
    requires Sized(v) && d < 1024 && PoolOK(v.frames)
    requires Present(Pde(v, d)) || CanServe(v.frames, 1)
  {
    if Present(Pde(v, d)) then v
    else v.(m := Put(v.m, v.pd, d, Or3(PAGE * Chosen(v.frames, 1))),
            frames := AllocFrames(v.frames, 1))
  }

  /** mapfr's second half, and umapfr: store `entry` as the table entry of page p. */
  ghost function WithEntry(v: Mmu, p: nat, entry: Word): Mmu
    requires Sized(v) && p < 0x10_0000
  {
    v.(m := Put(v.m, FrameOf(Pde(v, p / 1024)), p % 1024, entry))
  }

  lemma OrPresent(x: Word)
    ensures Present(Or3(x)) && FrameOf(Or3(x)) == x / PAGE
  {
    var a, b := x / PAGE, x / 4;
    assert 1024 * a <= b < 1024 * a + 1024;
    assert Or3(x) == 4 * b + 3;
    assert 4 * b + 3 == 2 * (2 * b + 1) + 1;
    assert PAGE * a <= 4 * b + 3 < PAGE * a + PAGE;
  }

  /** Of a page-aligned address nothing is lost: the bits added are P and R/W, and no other. */
  lemma OrAligned(f: Frame)
    ensures f * PAGE < MEMORY_LIMIT && Or3(f * PAGE) == f * PAGE + 3
  {
    Arithmetic.ModUnique(f * PAGE, 4, f * 1024, 0);
  }

  /** hwpalloc(1) answers a frame of the pool that was free and is claimed from now on. */
  lemma NewTableFree(v: Mmu)
    requires PoolOK(v.frames) && CanServe(v.frames, 1)
    ensures var g := Chosen(v.frames, 1);
      && InPool(v.frames, g) && !Claimed(v.frames, g)
      && var s := AllocFrames(v.frames, 1);
      && PoolOK(s) && s.first == v.frames.first && s.count == v.frames.count && s.used == v.frames.used + {g}
  {
    hide LowestRun;
  }

  /** Nothing outside the directory entry changes, and the new table is a frame that no other table uses. */
  lemma WithTableFrame(v: Mmu, d: nat)
    requires MmuOK(v) && d < 1023 && !Present(Pde(v, d)) && CanServe(v.frames, 1)
    ensures var v' := WithTable(v, d); var g := Chosen(v.frames, 1);
      && Present(Pde(v', d)) && FrameOf(Pde(v', d)) == g && Pde(v', d) == 4096 * g + 3
      && g != v.pd && InPool(v.frames, g) && !Claimed(v.frames, g)
      && PoolOK(v'.frames) && v'.frames.first == v.frames.first && v'.frames.count == v.frames.count
      && v'.frames.used == v.frames.used + {g}
      && forall e: nat :: e < 1024 && e != d ==> Pde(v', e) == Pde(v, e)
  {
    NewTableFree(v);
    OrPresent(PAGE * Chosen(v.frames, 1));
    OrAligned(Chosen(v.frames, 1));
    hide Or3, Chosen, AllocFrames, CanServe, TablesDistinct, Translate;
  }

  lemma WithTableOK(v: Mmu, d: nat)
    requires MmuOK(v) && d < 1023
    requires Present(Pde(v, d)) || CanServe(v.frames, 1)
    ensures MmuOK(WithTable(v, d)) && Present(Pde(WithTable(v, d), d))
  {
    if !Present(Pde(v, d)) {
      var v' := WithTable(v, d);
      WithTableFrame(v, d);
      WithTableKeeps(v, d, v.self / PAGE);
    }
  }

  /** A new table changes the translation of pages under it and of its own page in the table window only. */
  lemma WithTableKeeps(v: Mmu, d: nat, q: nat)
    requires MmuOK(v) && d < 1023 && q < 0x10_0000
    requires Present(Pde(v, d)) || (CanServe(v.frames, 1) && q / 1024 != d && q != WINDOW_PAGE + d)
    ensures Translate(WithTable(v, d), q) == Translate(v, q)
  {
    if !Present(Pde(v, d)) {
      WithTableFrame(v, d);
    }
  }

  lemma WithEntryOK(v: Mmu, p: nat, entry: Word)
    requires MmuOK(v) && Mappable(v, p) && Present(Pde(v, p / 1024))
    ensures MmuOK(WithEntry(v, p, entry))
    ensures forall e: nat :: e < 1024 ==> Pde(WithEntry(v, p, entry), e) == Pde(v, e)
    ensures Translate(WithEntry(v, p, entry), p) == if Present(entry) then Some(FrameOf(entry)) else None
  {
    var v' := WithEntry(v, p, entry);
    assert FrameOf(Pde(v, p / 1024)) != v.pd;
    assert forall e: nat :: e < 1024 ==> Pde(v', e) == Pde(v, e);
    WithEntryKeeps(v, p, entry, v.self / PAGE);
  }

  /** Setting one entry changes the translation of one page. */
  lemma WithEntryKeeps(v: Mmu, p: nat, entry: Word, q: nat)
    requires MmuOK(v) && Mappable(v, p) && Present(Pde(v, p / 1024)) && q < 0x10_0000 && q != p
    ensures Translate(WithEntry(v, p, entry), q) == Translate(v, q)
  {
    var v' := WithEntry(v, p, entry);
    assert Pde(v', q / 1024) == Pde(v, q / 1024);
    assert p == p / 1024 * 1024 + p % 1024 && q == q / 1024 * 1024 + q % 1024;
  }

  // ---------------------------------------------------------------------------
  // The recursive directory
  // ---------------------------------------------------------------------------

  /** The address that mapfr computes for word j of table d. */
  function TableAddr(d: Index, j: Index): Word {
    TABLE_WINDOW + d * PAGE + 4 * j
  }

  /**
   * The walk of that address reads the directory twice and ends at word j of table d,
   * exactly when entry d is present; for d = 1023 the table is the directory.
   */
  lemma RecursiveWalk(v: Mmu, d: Index, j: Index)
    requires MmuOK(v)
    ensures Walk(v, TableAddr(d, j)) ==
            if Present(Pde(v, d)) then Some(FrameOf(Pde(v, d)) * PAGE + 4 * j) else None
  {
    var va := TableAddr(d, j);
    assert va / PAGE == WINDOW_PAGE + d && va % PAGE == 4 * j;
    assert (WINDOW_PAGE + d) / 1024 == 1023 && (WINDOW_PAGE + d) % 1024 == d;
  }

  /** So a load or store at that address reads or sets that table entry, and nothing else. */
  lemma RecursiveStore(v: Mmu, d: Index, j: Index, w: Word)
    requires MmuOK(v) && Present(Pde(v, d))
    ensures TableAddr(d, j) % 4 == 0 && Walk(v, TableAddr(d, j)).Some?
    ensures At(v.m, Translate(v, TableAddr(d, j) / PAGE).value, TableAddr(d, j) % PAGE / 4) == At(v.m, FrameOf(Pde(v, d)), j)
    ensures StoreWord(v, TableAddr(d, j), w) == WithEntry(v, d * 1024 + j, w)
  {
    hide TablesDistinct, PoolOK;
    var va := TableAddr(d, j);
    assert va / PAGE == WINDOW_PAGE + d && va % PAGE == 4 * j;
    assert (WINDOW_PAGE + d) / 1024 == 1023 && (WINDOW_PAGE + d) % 1024 == d;
    assert (d * 1024 + j) / 1024 == d && (d * 1024 + j) % 1024 == j;
  }

  /** The same for pde_table[d], which lies in the kernel's own mapping. */
  lemma DirectoryStore(v: Mmu, d: Index, w: Word)
    requires MmuOK(v)
    ensures var va := v.self + 4 * d;
      && va < MEMORY_LIMIT && va % 4 == 0
      && Translate(v, va / PAGE) == Some(v.pd) && Walk(v, va) == Some(v.pd * PAGE + 4 * d)
      && At(v.m, v.pd, va % PAGE / 4) == Pde(v, d)
      && StoreWord(v, va, w) == v.(m := Put(v.m, v.pd, d, w))
  {
    hide TablesDistinct, PoolOK, Translate, Put;
    PageOffset(v.self / PAGE, 4 * d);
  }

  /** The shifts and masks of the paging code, on page numbers. */
  lemma IndexSplit(va: Word)
    ensures va / 0x40_0000 == va / PAGE / 1024 < 1024 && va / 0x1000 % 0x400 == va / PAGE % 1024
    ensures va / PAGE == va / 0x40_0000 * 1024 + va / 0x1000 % 0x400
  {
  }

  lemma PageOffset(s: nat, off: nat)
    requires off < PAGE
    ensures (PAGE * s + off) / PAGE == s && (PAGE * s + off) % PAGE == off
    ensures off % 4 == 0 ==> (PAGE * s + off) % 4 == 0
  {
    assert off % 4 == 0 ==> PAGE * s + off == 4 * (1024 * s + off / 4);
  }

  /** Entry `f * 4096 + 3` is present and names frame f. */
  lemma FrameEntry(f: Frame)
    ensures f * PAGE + 3 < MEMORY_LIMIT && Present(f * PAGE + 3) && FrameOf(f * PAGE + 3) == f
  {
    assert f * PAGE + 3 == 2 * (f * 2048 + 1) + 1;
  }

  /** The directory that boot.s leaves: tables 768 and 1023, and the kernel mapped from 1 MiB up. */
  ghost predicate BootDirectory(v: Mmu, table768: Frame)
    requires Sized(v)
  {
    && 0x100 <= v.pd < 0x400 && v.self == 0xc000_0000 + v.pd * PAGE && table768 != v.pd
    && Pde(v, 768) == table768 * PAGE + 3 && Pde(v, 1023) == v.pd * PAGE + 3
    && (forall d: nat :: d < 1023 && d != 768 ==> !Present(Pde(v, d)))
    && (forall j: nat :: 256 <= j < 1024 ==> At(v.m, table768, j) == j * PAGE + 3)
  }

  lemma BootTranslates(v: Mmu, table768: Frame)
    requires Sized(v) && BootDirectory(v, table768)
    ensures Translate(v, v.self / PAGE) == Some(v.pd)
  {
    var p := v.self / PAGE;
    assert p == 0xc_0000 + v.pd;
    assert p / 1024 == 768 && p % 1024 == v.pd;
    FrameEntry(table768);
    FrameEntry(v.pd);
  }

  /** It is enough for every invariant here, when neither table lies in the pool. */
  lemma BootDirectoryOK(v: Mmu, table768: Frame)
    requires Sized(v) && PoolOK(v.frames) && BootDirectory(v, table768)
    requires !InPool(v.frames, v.pd) && !InPool(v.frames, table768)
    ensures MmuOK(v)
  {
    BootTranslates(v, table768);
    FrameEntry(table768);
    FrameEntry(v.pd);
    hide Translate;
    assert forall d: nat :: d < 1023 && Present(Pde(v, d)) ==> d == 768;
  }

  // ---------------------------------------------------------------------------
  // mapfr and mmap
  // ---------------------------------------------------------------------------

  ghost predicate CanMap(v: Mmu, p: nat)
    requires MmuOK(v) && Mappable(v, p)
  {
    Present(Pde(v, p / 1024)) || CanServe(v.frames, 1)
  }

  lemma MapSteps(v: Mmu, hw: Word, p: nat)
    requires MmuOK(v) && Mappable(v, p) && CanMap(v, p)
    ensures MmuOK(WithTable(v, p / 1024)) && Present(Pde(WithTable(v, p / 1024), p / 1024))
    ensures MmuOK(WithEntry(WithTable(v, p / 1024), p, Or3(hw)))
    ensures Translate(WithEntry(WithTable(v, p / 1024), p, Or3(hw)), p) == Some(hw / PAGE)
  {
    WithTableOK(v, p / 1024);
    OrPresent(hw);
    hide MmuOK, CanMap, CanServe, Translate;
    WithEntryOK(WithTable(v, p / 1024), p, Or3(hw));
  }

  ghost function MapFrame(v: Mmu, hw: Word, p: nat): (v': Mmu)
    requires MmuOK(v) && Mappable(v, p) && CanMap(v, p)
    ensures MmuOK(v') && v'.self == v.self
    ensures Translate(v', p) == Some(hw / PAGE)
  {
    MapSteps(v, hw, p);
    WithEntry(WithTable(v, p / 1024), p, Or3(hw))
  }

  /** The walk of page q, or its failure, does not hang on a directory entry that is still empty. */
  ghost predicate Settled(v: Mmu, q: nat)
    requires Sized(v) && q < 0x10_0000
  {
    Present(Pde(v, q / 1024)) && (q >= WINDOW_PAGE ==> Present(Pde(v, q - WINDOW_PAGE)))
  }

  ghost predicate NewTable(v: Mmu, v': Mmu, f: nat)
    requires Sized(v) && Sized(v')
  {
    exists d: nat :: d < 1023 && !Present(Pde(v, d)) && Present(Pde(v', d)) && FrameOf(Pde(v', d)) == f
  }

  /** Directory entries that were present are untouched. */
  ghost predicate TablesKept(v: Mmu, v': Mmu)
    requires Sized(v) && Sized(v')
  {
    && v'.pd == v.pd && v'.self == v.self && v'.frames.first == v.frames.first && v'.frames.count == v.frames.count
    && forall d: nat :: d < 1024 && Present(Pde(v, d)) ==> Pde(v', d) == Pde(v, d)
  }

  /** Settled pages outside lo to hi - 1 keep their translation. */
  ghost predicate TranslationsKept(v: Mmu, v': Mmu, lo: nat, hi: nat)
    requires Sized(v) && Sized(v')
  {
    forall q: nat :: q < 0x10_0000 && Settled(v, q) && !(lo <= q < hi) ==> Translate(v', q) == Translate(v, q)
  }

  /** The frames newly in use are exactly the new tables, and these were free before. */
  ghost predicate OnlyTablesTaken(v: Mmu, v': Mmu)
    requires Sized(v) && Sized(v')
  {
    && (forall i: nat :: i in v'.frames.used <==> i in v.frames.used || NewTable(v, v', i))
    && (forall f: nat :: NewTable(v, v', f) ==> InPool(v.frames, f) && !Claimed(v.frames, f))
  }

  /** Only page tables were written. */
  ghost predicate DataKept(v: Mmu, v': Mmu)
    requires Sized(v) && Sized(v')
  {
    forall f: Frame, j: Index :: !IsTable(v', f) ==> At(v'.m, f, j) == At(v.m, f, j)
  }

  /** From v to v' nothing happened but the mapping of pages lo to hi - 1. */
  ghost predicate Extends(v: Mmu, v': Mmu, lo: nat, hi: nat) {
    && MmuOK(v) && MmuOK(v')
    && TablesKept(v, v') && TranslationsKept(v, v', lo, hi) && OnlyTablesTaken(v, v') && DataKept(v, v')
  }

  lemma MapFrameTables(v: Mmu, hw: Word, p: nat)
    requires MmuOK(v) && Mappable(v, p) && CanMap(v, p)
    ensures var v' := MapFrame(v, hw, p);
            TablesKept(v, v') && forall e: nat :: e < 1024 ==> Pde(v', e) == Pde(WithTable(v, p / 1024), e)
  {
    var v1 := WithTable(v, p / 1024);
    WithTableOK(v, p / 1024);
    WithEntryOK(v1, p, Or3(hw));
    if !Present(Pde(v, p / 1024)) {
      WithTableFrame(v, p / 1024);
    }
  }

  lemma MapFrameNewTable(v: Mmu, hw: Word, p: nat, f: nat)
    requires MmuOK(v) && Mappable(v, p) && CanMap(v, p)
    ensures NewTable(v, MapFrame(v, hw, p), f) <==> !Present(Pde(v, p / 1024)) && f == Chosen(v.frames, 1)
  {
    MapFrameTables(v, hw, p);
    if !Present(Pde(v, p / 1024)) {
      WithTableFrame(v, p / 1024);
    }
    hide WithTable, MapFrame, Translate, TablesDistinct, CanServe, Chosen;
  }

  lemma MapFrameUsed(v: Mmu, hw: Word, p: nat)
    requires MmuOK(v) && Mappable(v, p) && CanMap(v, p)
    ensures OnlyTablesTaken(v, MapFrame(v, hw, p))
  {
    forall f: nat
      ensures NewTable(v, MapFrame(v, hw, p), f) <==> !Present(Pde(v, p / 1024)) && f == Chosen(v.frames, 1)
    {
      MapFrameNewTable(v, hw, p, f);
    }
    if !Present(Pde(v, p / 1024)) {
      NewTableFree(v);
    }
    hide Translate, TablesDistinct, CanServe, Chosen, NewTable;
  }

  lemma MapFrameData(v: Mmu, hw: Word, p: nat)
    requires MmuOK(v) && Mappable(v, p) && CanMap(v, p)
    ensures DataKept(v, MapFrame(v, hw, p))
  {
    var v1 := WithTable(v, p / 1024);
    var v' := MapFrame(v, hw, p);
    MapFrameTables(v, hw, p);
    WithTableOK(v, p / 1024);
    assert Present(Pde(v', p / 1024)) && IsTable(v', FrameOf(Pde(v', p / 1024))) && IsTable(v', v.pd);
  }

  lemma MapFrameTranslations(v: Mmu, hw: Word, p: nat)
    requires MmuOK(v) && Mappable(v, p) && CanMap(v, p)
    ensures TranslationsKept(v, MapFrame(v, hw, p), p, p + 1)
  {
    WithTableOK(v, p / 1024);
    forall q: nat | q < 0x10_0000 && Settled(v, q) && q != p
      ensures Translate(MapFrame(v, hw, p), q) == Translate(v, q)
    {
      WithTableKeeps(v, p / 1024, q);
      WithEntryKeeps(WithTable(v, p / 1024), p, Or3(hw), q);
    }
  }

  lemma MapFrameExtends(v: Mmu, hw: Word, p: nat)
    requires MmuOK(v) && Mappable(v, p) && CanMap(v, p)
    ensures Extends(v, MapFrame(v, hw, p), p, p + 1)
  {
    MapFrameTables(v, hw, p);
    MapFrameUsed(v, hw, p);
    MapFrameData(v, hw, p);
    MapFrameTranslations(v, hw, p);
  }

  lemma NewTableTrans(v: Mmu, v1: Mmu, v2: Mmu, f: nat)
    requires Sized(v) && Sized(v1) && Sized(v2) && TablesKept(v, v1) && TablesKept(v1, v2)
    ensures NewTable(v, v2, f) <==> NewTable(v, v1, f) || NewTable(v1, v2, f)
    ensures IsTable(v1, f) ==> IsTable(v2, f)
  {
  }

  lemma TranslationsTrans(v: Mmu, v1: Mmu, v2: Mmu, lo: nat, mid: nat, hi: nat)
    requires Sized(v) && Sized(v1) && Sized(v2) && TablesKept(v, v1) && lo <= mid <= hi
    requires TranslationsKept(v, v1, lo, mid) && TranslationsKept(v1, v2, mid, hi)
    ensures TranslationsKept(v, v2, lo, hi)
  {
    forall q: nat | q < 0x10_0000 && Settled(v, q) && !(lo <= q < hi)
      ensures Translate(v2, q) == Translate(v, q)
    {
      assert Settled(v1, q);
    }
  }

  lemma UsedTrans(v: Mmu, v1: Mmu, v2: Mmu)
    requires Sized(v) && Sized(v1) && Sized(v2) && TablesKept(v, v1) && TablesKept(v1, v2)
    requires OnlyTablesTaken(v, v1) && OnlyTablesTaken(v1, v2)
    ensures OnlyTablesTaken(v, v2)
  {
    hide NewTable, Pde;
    forall f: nat
      ensures NewTable(v, v2, f) <==> NewTable(v, v1, f) || NewTable(v1, v2, f)
    {
      NewTableTrans(v, v1, v2, f);
    }
  }

  lemma DataTrans(v: Mmu, v1: Mmu, v2: Mmu)
    requires Sized(v) && Sized(v1) && Sized(v2) && TablesKept(v, v1) && TablesKept(v1, v2)
    requires DataKept(v, v1) && DataKept(v1, v2)
    ensures DataKept(v, v2)
  {
    forall f: Frame, j: Index | !IsTable(v2, f)
      ensures At(v2.m, f, j) == At(v.m, f, j)
    {
      NewTableTrans(v, v1, v2, f);
    }
  }

  lemma ExtendsRefl(v: Mmu, p: nat)
    requires MmuOK(v)
    ensures Extends(v, v, p, p)
  {
  }

  lemma ExtendsTrans(v: Mmu, v1: Mmu, v2: Mmu, lo: nat, mid: nat, hi: nat)
    requires lo <= mid <= hi && Extends(v, v1, lo, mid) && Extends(v1, v2, mid, hi)
    ensures Extends(v, v2, lo, hi)
  {
    TranslationsTrans(v, v1, v2, lo, mid, hi);
    UsedTrans(v, v1, v2);
    DataTrans(v, v1, v2);
  }

  ghost predicate CanMapRange(v: Mmu, f: nat, p: nat, n: nat)
    requires MmuOK(v)
    decreases n
  {
    n > 0 ==>
      && f < 0x10_0000 && Mappable(v, p) && CanMap(v, p)
      && CanMapRange(MapFrame(v, PAGE * f, p), f + 1, p + 1, n - 1)
  }

  /** The loop of mmap: the frames from f on behind the n pages from p on. */
  ghost function MapRange(v: Mmu, f: nat, p: nat, n: nat): (v': Mmu)
    requires MmuOK(v) && CanMapRange(v, f, p, n)
    ensures MmuOK(v')
    decreases n
  {
    hide MapFrame, CanMap;
    if n == 0 then v else MapRange(MapFrame(v, PAGE * f, p), f + 1, p + 1, n - 1)
  }

  lemma {:induction false} MapRangeExtends(v: Mmu, f: nat, p: nat, n: nat)
    requires MmuOK(v) && CanMapRange(v, f, p, n)
    ensures Extends(v, MapRange(v, f, p, n), p, p + n)
    decreases n
  {
    hide Extends, MmuOK, MapFrame, CanMap;
    if n == 0 {
      ExtendsRefl(v, p);
    } else {
      var v1 := MapFrame(v, PAGE * f, p);
      MapFrameExtends(v, PAGE * f, p);
      MapRangeExtends(v1, f + 1, p + 1, n - 1);
      ExtendsTrans(v, v1, MapRange(v, f, p, n), p, p + 1, p + n);
    }
  }

  lemma {:induction false} MapRangeTranslates(v: Mmu, f: nat, p: nat, n: nat, i: nat)
    requires MmuOK(v) && CanMapRange(v, f, p, n) && i < n
    ensures Mappable(v, p + i)
    ensures Translate(MapRange(v, f, p, n), p + i) == Some(f + i)
    decreases n
  {
    hide MmuOK, CanMap, MapFrame, Translate, WithTable;
    var v1 := MapFrame(v, PAGE * f, p);
    if i == 0 {
      MapRangeExtends(v1, f + 1, p + 1, n - 1);
      ExtendsKeepsMapped(v1, MapRange(v, f, p, n), p + 1, p + n, p);
    } else {
      MapRangeTranslates(v1, f + 1, p + 1, n - 1, i - 1);
    }
  }

  lemma ExtendsKeepsMapped(v: Mmu, v': Mmu, lo: nat, hi: nat, q: nat)
    requires Extends(v, v', lo, hi) && q < WINDOW_PAGE && !(lo <= q < hi) && Translate(v, q).Some?
    ensures Translate(v', q) == Translate(v, q)
  {
    assert Settled(v, q);
  }
}
