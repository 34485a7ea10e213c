/** What mapfr, umapfr, mmap and munmap do to the page walk. */
module VirtMM {
  import opened Words
  import opened PhyMM
  import opened Paging

  // ---------------------------------------------------------------------------
  // Specification
  // ---------------------------------------------------------------------------

  /** The state between mmap's hwpalloc and its mapping loop. */
  ghost function Granted(v: Mmu, n: nat): Mmu
    requires PoolOK(v.frames) && CanServe(v.frames, n)
  {
    v.(frames := AllocFrames(v.frames, n))
  }

  lemma GrantedOK(v: Mmu, n: nat)
    requires MmuOK(v) && CanServe(v.frames, n)
    ensures MmuOK(Granted(v, n))
    ensures v.frames.first <= Chosen(v.frames, n) && Chosen(v.frames, n) + n <= v.frames.first + v.frames.count
    ensures forall g: nat :: g in Granted(v, n).frames.used <==>
              g in v.frames.used || Chosen(v.frames, n) <= g < Chosen(v.frames, n) + n
    ensures forall g: nat :: Chosen(v.frames, n) <= g < Chosen(v.frames, n) + n ==> g !in v.frames.used
  {
    hide TopFree, LowestRun, Chosen;
    var v' := Granted(v, n);
    assert Translate(v', v.self / PAGE) == Translate(v, v.self / PAGE);
    assert forall d: nat :: d < 1024 ==> Pde(v', d) == Pde(v, d);
  }

  /** There are frames enough: n for the data, and one for every table on the way. */
  ghost predicate CanMmap(v: Mmu, p: nat, n: nat)
    requires MmuOK(v)
  {
    && CanServe(v.frames, n)
    && (GrantedOK(v, n); CanMapRange(Granted(v, n), Chosen(v.frames, n), p, n))
  }

  /** mmap of n pages from page p on. */
  ghost function Mmap(v: Mmu, p: nat, n: nat): (v': Mmu)
    requires MmuOK(v) && CanMmap(v, p, n)
    ensures MmuOK(v')
  {
    GrantedOK(v, n);
    MapRange(Granted(v, n), Chosen(v.frames, n), p, n)
  }

  ghost function Unmap(v: Mmu, p: nat): Mmu
    requires Sized(v) && p < 0x10_0000
  {
    if Present(Pde(v, p / 1024)) then WithEntry(v, p, 0) else v
  }

  ghost function UnmapRange(v: Mmu, p: nat, n: nat): Mmu
    requires Sized(v) && p + n < 0x10_0000
    decreases n
  {
    if n == 0 then v else UnmapRange(Unmap(v, p), p + 1, n - 1)
  }

  /** _lpa: the frame bits of the table entry, and only the low ten bits of the address. */
  ghost function Lpa(v: Mmu, va: Word): nat
    requires Sized(v) && Present(Pde(v, va / PAGE / 1024))
  {
    var entry := At(v.m, FrameOf(Pde(v, va / PAGE / 1024)), va / PAGE % 1024);
    entry - entry % 1024 + va % 1024
  }

  ghost function Munmap(v: Mmu, va: Word, n: nat): (Status, Mmu)
    requires Sized(v) && Present(Pde(v, va / PAGE / 1024)) && va / PAGE + n < 0xf_ffff
  {
    var v' := UnmapRange(v, va / PAGE + 1, if n == 0 then 0 else n - 1);
    var (status, frames) := FreeFrames(v'.frames, Lpa(v, va), n);
    (status, v'.(frames := frames))
  }

  predicate MappableRange(v: Mmu, p: nat, n: nat) {
    p + n <= WINDOW_PAGE && !(p <= v.self / PAGE < p + n)
  }

  // ---------------------------------------------------------------------------
  // mmap
  // ---------------------------------------------------------------------------

  lemma MmapTranslates(v: Mmu, p: nat, n: nat, q: nat)
    requires MmuOK(v) && CanMmap(v, p, n) && p <= q < p + n
    ensures Mappable(v, q) && Translate(Mmap(v, p, n), q) == Some(Chosen(v.frames, n) + q - p)
  {
    hide MapRange, CanMapRange, MapFrame, Translate, WithTable;
    GrantedOK(v, n);
    MapRangeTranslates(Granted(v, n), Chosen(v.frames, n), p, n, q - p);
  }

  lemma MmapExtends(v: Mmu, p: nat, n: nat)
    requires MmuOK(v) && CanMmap(v, p, n)
    ensures MmuOK(Granted(v, n)) && Extends(Granted(v, n), Mmap(v, p, n), p, p + n)
  {
    GrantedOK(v, n);
    MapRangeExtends(Granted(v, n), Chosen(v.frames, n), p, n);
  }

  lemma GrantedSame(v: Mmu, n: nat)
    requires MmuOK(v) && CanServe(v.frames, n)
    ensures var u := Granted(v, n);
      && TablesKept(v, u) && DataKept(v, u)
      && (forall q: nat :: q < 0x10_0000 ==> Translate(u, q) == Translate(v, q) && (Settled(v, q) <==> Settled(u, q)))
      && (forall v': Mmu, f: nat :: Sized(v') ==> (NewTable(v, v', f) <==> NewTable(u, v', f)))
      && (forall f: nat :: IsTable(v, f) <==> IsTable(u, f))
  {
    hide Chosen;
    var u := Granted(v, n);
    assert forall d: nat :: d < 1024 ==> Pde(u, d) == Pde(v, d);
  }

  lemma MmapKeeps(v: Mmu, p: nat, n: nat)
    requires MmuOK(v) && CanMmap(v, p, n)
    ensures var v' := Mmap(v, p, n);
      MmuOK(v') && TablesKept(v, v') && TranslationsKept(v, v', p, p + n) && DataKept(v, v')
  {
    MmapExtends(v, p, n);
    GrantedSame(v, n);
    hide Mmap, MmuOK, Chosen, Translate, NewTable, IsTable;
  }

  /** The frames behind the mapping were free, and none of them is or becomes a table. */
  lemma MmapDataFrames(v: Mmu, p: nat, n: nat, g: nat)
    requires MmuOK(v) && CanMmap(v, p, n) && Chosen(v.frames, n) <= g < Chosen(v.frames, n) + n
    ensures InPool(v.frames, g) && !Claimed(v.frames, g) && !IsTable(Mmap(v, p, n), g)
  {
    var u, v' := Granted(v, n), Mmap(v, p, n);
    GrantedOK(v, n);
    MmapExtends(v, p, n);
    hide Mmap, Granted, Chosen, Translate;
    assert !NewTable(u, v', g);
    assert !IsTable(u, g) by {
      GrantedSame(v, n);
      assert !IsTable(v, g);
    }
  }

  lemma MmapUsed(v: Mmu, p: nat, n: nat, g: nat)
    requires MmuOK(v) && CanMmap(v, p, n)
    ensures g in Mmap(v, p, n).frames.used <==>
            || g in v.frames.used || Chosen(v.frames, n) <= g < Chosen(v.frames, n) + n
            || NewTable(v, Mmap(v, p, n), g)
    ensures NewTable(v, Mmap(v, p, n), g) ==> InPool(v.frames, g) && g !in v.frames.used
  {
    GrantedOK(v, n);
    MmapExtends(v, p, n);
    GrantedSame(v, n);
    hide Mmap, Granted, Chosen, Translate, NewTable, MmuOK;
  }

  /**
   * mmap maps its pages in order to n consecutive frames that were free, takes besides them only
   * frames for new tables, keeps every other settled translation, and writes to tables only.
   */
  lemma MmapMaps(v: Mmu, p: nat, n: nat)
    requires MmuOK(v) && CanMmap(v, p, n)
    ensures var v' := Mmap(v, p, n); var f := Chosen(v.frames, n);
      && MmuOK(v') && TablesKept(v, v') && TranslationsKept(v, v', p, p + n) && DataKept(v, v')
      && (forall q: nat :: p <= q < p + n ==> Mappable(v, q) && Translate(v', q) == Some(f + q - p))
      && (forall g: nat :: f <= g < f + n ==> InPool(v.frames, g) && !Claimed(v.frames, g) && !IsTable(v', g))
      && (forall g: nat :: g in v'.frames.used <==>
            g in v.frames.used || f <= g < f + n || NewTable(v, v', g))
      && (forall g: nat :: NewTable(v, v', g) ==> InPool(v.frames, g) && g !in v.frames.used)
  {
    MmapKeeps(v, p, n);
    forall q: nat | p <= q < p + n
      ensures Mappable(v, q) && Translate(Mmap(v, p, n), q) == Some(Chosen(v.frames, n) + q - p)
    {
      MmapTranslates(v, p, n, q);
    }
    forall g: nat | Chosen(v.frames, n) <= g < Chosen(v.frames, n) + n
      ensures InPool(v.frames, g) && !Claimed(v.frames, g) && !IsTable(Mmap(v, p, n), g)
    {
      MmapDataFrames(v, p, n, g);
    }
    forall g: nat
      ensures g in Mmap(v, p, n).frames.used <==>
              g in v.frames.used || Chosen(v.frames, n) <= g < Chosen(v.frames, n) + n || NewTable(v, Mmap(v, p, n), g)
      ensures NewTable(v, Mmap(v, p, n), g) ==> InPool(v.frames, g) && g !in v.frames.used
    {
      MmapUsed(v, p, n, g);
    }
    hide Mmap, Chosen, Translate, NewTable, IsTable, MmuOK, Claimed, TranslationsKept, TablesKept, DataKept;
  }

  // ---------------------------------------------------------------------------
  // How many frames are enough
  // ---------------------------------------------------------------------------

  /** The frames that single-page requests can still pop: the one in the bottom slot is out of reach. */
  function Spare(s: Frames): set<nat> {
    set f | f in Range(s.first + 1, s.count) && f <= s.top && f !in s.used
  }

  /** The directory entries still empty among those that pages p to p + n - 1 fall under. */
  ghost function Missing(v: Mmu, p: nat, n: nat): set<nat>
    requires Sized(v) && n > 0 && p + n <= 0x10_0000
  {
    set d | d in Range(p / 1024, (p + n - 1) / 1024 - p / 1024 + 1) && !Present(Pde(v, d))
  }

  lemma SpareServes(s: Frames)
    requires PoolOK(s) && Spare(s) != {}
    ensures CanServe(s, 1)
    ensures Spare(AllocFrames(s, 1)) == Spare(s) - {Chosen(s, 1)}
    ensures Chosen(s, 1) in Spare(s)
  {
    var f :| f in Spare(s);
    assert f !in s.used && s.first < f <= s.top;
  }

  lemma {:induction false} SubsetSize(a: set<nat>, b: set<nat>)
    requires a <= b
    ensures |a| <= |b|
  {
    if a != {} {
      var x :| x in a;
      SubsetSize(a - {x}, b - {x});
    }
  }

  /** One more page: every empty directory entry that gets filled costs one spare frame. */
  lemma MapFrameCost(v: Mmu, hw: Word, p: nat, n: nat)
    requires MmuOK(v) && Mappable(v, p) && CanMap(v, p) && n > 1 && p + n <= 0x10_0000
    requires |Missing(v, p, n)| <= |Spare(v.frames)|
    ensures |Missing(MapFrame(v, hw, p), p + 1, n - 1)| <= |Spare(MapFrame(v, hw, p).frames)|
  {
    hide Translate, TablesDistinct, TopFree, LowestRun;
    var v1, d := MapFrame(v, hw, p), p / 1024;
    MapFrameTables(v, hw, p);
    if Present(Pde(v, d)) {
      SubsetSize(Missing(v1, p + 1, n - 1), Missing(v, p, n));
    } else {
      WithTableFrame(v, d);
      assert d in Missing(v, p, n);
      SpareServes(v.frames);
      SubsetSize(Missing(v1, p + 1, n - 1), Missing(v, p, n) - {d});
    }
  }

  /** A spare frame for every empty directory entry on the way is enough for mmap's loop. */
  lemma {:induction false} EnoughSpare(v: Mmu, f: nat, p: nat, n: nat)
    requires MmuOK(v) && n > 0 && f + n <= 0x10_0000 && MappableRange(v, p, n)
    requires |Missing(v, p, n)| <= |Spare(v.frames)|
    ensures CanMapRange(v, f, p, n)
    decreases n
  {
    hide MapFrame, Translate, WithTable, TablesDistinct, CanServe, Spare, AllocFrames, TopFree, LowestRun;
    if !Present(Pde(v, p / 1024)) {
      assert p / 1024 in Missing(v, p, n);
      SpareServes(v.frames);
    }
    assert Mappable(v, p) && CanMap(v, p);
    if n > 1 {
      MapFrameCost(v, PAGE * f, p, n);
      EnoughSpare(MapFrame(v, PAGE * f, p), f + 1, p + 1, n - 1);
    }
  }

  lemma RangeSize(start: nat, n: nat)
    ensures |Range(start, n)| == n
  {
  }

  /** There are at most as many empty entries as the pages span. */
  lemma MissingAtMost(v: Mmu, p: nat, n: nat)
    requires Sized(v) && n > 0 && p + n <= 0x10_0000
    ensures |Missing(v, p, n)| <= (p + n - 1) / 1024 - p / 1024 + 1
  {
    var span := (p + n - 1) / 1024 - p / 1024 + 1;
    RangeSize(p / 1024, span);
    SubsetSize(Missing(v, p, n), Range(p / 1024, span));
  }

  /** What a caller of mmap can count: frames for the data, and after them a spare one for each empty entry. */
  ghost predicate Enough(v: Mmu, p: nat, n: nat)
    requires MmuOK(v)
  {
    && n > 0 && MappableRange(v, p, n) && CanServe(v.frames, n)
    && |Missing(v, p, n)| <= |Spare(AllocFrames(v.frames, n))|
  }

  lemma EnoughFrames(v: Mmu, p: nat, n: nat)
    requires MmuOK(v) && Enough(v, p, n)
    ensures CanMmap(v, p, n)
  {
    hide Chosen, AllocFrames, Spare, Translate, CanMapRange;
    GrantedOK(v, n);
    assert Missing(Granted(v, n), p, n) == Missing(v, p, n) by {
      assert forall d: nat :: d < 1024 ==> Pde(Granted(v, n), d) == Pde(v, d);
    }
    EnoughSpare(Granted(v, n), Chosen(v.frames, n), p, n);
  }

  // ---------------------------------------------------------------------------
  // munmap
  // ---------------------------------------------------------------------------

  lemma UnmapOK(v: Mmu, p: nat)
    requires MmuOK(v) && Mappable(v, p)
    ensures MmuOK(Unmap(v, p)) && Unmap(v, p).self == v.self && Unmap(v, p).frames == v.frames && Unmap(v, p).pd == v.pd
    ensures forall d: nat :: d < 1024 ==> Pde(Unmap(v, p), d) == Pde(v, d)
    ensures forall q: nat :: q < 0x10_0000 ==> Translate(Unmap(v, p), q) == if q == p then None else Translate(v, q)
  {
    if Present(Pde(v, p / 1024)) {
      WithEntryOK(v, p, 0);
      forall q: nat | q < 0x10_0000 && q != p
        ensures Translate(Unmap(v, p), q) == Translate(v, q)
      {
        WithEntryKeeps(v, p, 0, q);
      }
    }
  }

  /** umapfr leaves the entry 0. */
  lemma UnmapEntry(v: Mmu, p: nat)
    requires MmuOK(v) && Mappable(v, p) && Present(Pde(v, p / 1024))
    ensures Pde(Unmap(v, p), p / 1024) == Pde(v, p / 1024)
    ensures At(Unmap(v, p).m, FrameOf(Pde(v, p / 1024)), p % 1024) == 0
  {
    hide TablesDistinct, PoolOK, Translate;
    UnmapOK(v, p);
  }

  lemma {:induction false} UnmapRangeOK(v: Mmu, p: nat, n: nat)
    requires MmuOK(v) && MappableRange(v, p, n)
    ensures var v' := UnmapRange(v, p, n);
      && MmuOK(v') && v'.frames == v.frames && v'.pd == v.pd && v'.self == v.self
      && (forall d: nat :: d < 1024 ==> Pde(v', d) == Pde(v, d))
      && (forall q: nat :: q < 0x10_0000 ==> Translate(v', q) == if p <= q < p + n then None else Translate(v, q))
    decreases n
  {
    hide Unmap, Translate, TablesDistinct, PoolOK;
    if n > 0 {
      UnmapOK(v, p);
      UnmapRangeOK(Unmap(v, p), p + 1, n - 1);
    }
  }

  /**
   * For a page whose entry holds a page-aligned address, _lpa is the page walk exactly when the
   * offset in the page is below 0x400: the mask keeps ten bits of offset, the page has twelve.
   */
  lemma LpaIsWalkIff(v: Mmu, hw: Word, va: Word)
    requires MmuOK(v) && Mappable(v, va / PAGE) && CanMap(v, va / PAGE) && hw % PAGE == 0
    ensures var v' := MapFrame(v, hw, va / PAGE);
            Present(Pde(v', va / PAGE / 1024)) && (Walk(v', va) == Some(Lpa(v', va)) <==> va % PAGE < 0x400)
  {
    var p := va / PAGE;
    MapFrameEntry(v, hw, p);
    LpaBits(hw, va);
    hide MmuOK, MapFrame, Mappable, CanMap;
  }

  /** mapfr leaves its entry in the table of page p: for a page-aligned address that and the bits P and R/W, no other. */
  lemma MapFrameEntry(v: Mmu, hw: Word, p: nat)
    requires MmuOK(v) && Mappable(v, p) && CanMap(v, p)
    ensures var v' := MapFrame(v, hw, p);
            Present(Pde(v', p / 1024)) && At(v'.m, FrameOf(Pde(v', p / 1024)), p % 1024) == Or3(hw)
    ensures hw % PAGE == 0 ==> Or3(hw) == hw + 3
  {
    hide TablesDistinct, PoolOK, CanServe, Chosen, Translate;
    OrAligned(hw / PAGE);
    MapSteps(v, hw, p);
    WithEntryOK(WithTable(v, p / 1024), p, Or3(hw));
  }

  /** The bits that _lpa keeps of a page-aligned entry and of an offset. */
  lemma LpaBits(hw: Word, va: Word)
    requires hw % PAGE == 0
    ensures Or3(hw) - Or3(hw) % 1024 == hw
    ensures va % 1024 == va % PAGE <==> va % PAGE < 0x400
  {
    var a, q := hw / PAGE, va / PAGE;
    PageOffset(a * 4, 3);
    assert Or3(hw) == 1024 * (4 * a) + 3;
    var r := va % PAGE;
    assert va == 1024 * (4 * q + r / 1024) + r % 1024;
  }

  /** _lpa names the frame that the walk names, whatever the low bits of its entry. */
  lemma LpaFrame(v: Mmu, va: Word)
    requires Sized(v) && Translate(v, va / PAGE).Some?
    ensures Lpa(v, va) / PAGE == Translate(v, va / PAGE).value
  {
    var entry := At(v.m, FrameOf(Pde(v, va / PAGE / 1024)), va / PAGE % 1024);
    var a, b := entry / PAGE, entry / 1024;
    assert 4 * a <= b < 4 * a + 4;
    assert Lpa(v, va) == 1024 * b + va % 1024;
    assert PAGE * a <= Lpa(v, va) < PAGE * a + PAGE;
  }

  /** Giving back frames that are no tables keeps the invariant. */
  lemma FreeOK(v: Mmu, k: nat, n: nat)
    requires MmuOK(v) && forall g: nat :: k <= g < k + n ==> !IsTable(v, g)
    ensures var v' := v.(frames := v.frames.(used := v.frames.used - Range(k, n)));
      MmuOK(v') && forall q: nat :: q < 0x10_0000 ==> Translate(v', q) == Translate(v, q)
  {
    var v' := v.(frames := v.frames.(used := v.frames.used - Range(k, n)));
    assert forall d: nat :: d < 1024 ==> Pde(v', d) == Pde(v, d);
    assert forall d: nat :: d < 1023 && Present(Pde(v, d)) ==> IsTable(v, FrameOf(Pde(v, d)));
    assert forall q: nat :: q < 0x10_0000 ==> Translate(v', q) == Translate(v, q);
  }

  /** What munmap leaves of the frames: a single page is refused, any other number is given back. */
  ghost function GivenBack(s: Frames, k: nat, n: nat): Frames {
    if n == 1 then s else s.(used := s.used - Range(k, n))
  }

  /** munmap of n pages that lie in order on the frames from k on. */
  lemma MunmapOK(v: Mmu, va: Word, n: nat, k: nat)
    requires MmuOK(v) && MappableRange(v, va / PAGE, n)
    requires Translate(v, va / PAGE) == Some(k) && InPool(v.frames, k) && k in v.frames.used
    requires va / PAGE < WINDOW_PAGE
    requires forall g: nat :: k <= g < k + n ==> !IsTable(v, g)
    ensures Present(Pde(v, va / PAGE / 1024))
    ensures var (status, v') := Munmap(v, va, n);
      && status == (if n == 1 then BorkdMem else Ok) && MmuOK(v')
      && v'.frames == GivenBack(v.frames, k, n)
      && (forall d: nat :: d < 1024 ==> Pde(v', d) == Pde(v, d))
      && (forall q: nat :: q < 0x10_0000 ==>
            Translate(v', q) == if va / PAGE < q < va / PAGE + n then None else Translate(v, q))
  {
    MappedHere(v, va / PAGE);
    hide Translate, UnmapRange, Lpa, IsTable, MmuOK;
    var m := if n == 0 then 0 else n - 1;
    LpaFrame(v, va);
    if n > 0 {
      UnmapRangeOK(v, va / PAGE + 1, m);
    }
    var u := UnmapRange(v, va / PAGE + 1, m);
    assert n == 0 ==> u == v by {
      NothingUnmapped(v, va / PAGE + 1);
    }
    SameTables(v, u);
    FreeOK(u, k, n);
    assert n == 1 ==> Munmap(v, va, n).1 == u;
  }

  lemma MappedHere(v: Mmu, p: nat)
    requires Sized(v) && p < 0x10_0000 && Translate(v, p).Some?
    ensures Present(Pde(v, p / 1024))
  {
  }

  lemma NothingUnmapped(v: Mmu, p: nat)
    requires Sized(v) && p < 0x10_0000
    ensures UnmapRange(v, p, 0) == v
  {
  }

  /** munmap of one page of the pool is refused, and changes nothing. */
  lemma MunmapOne(v: Mmu, va: Word)
    requires MmuOK(v) && va / PAGE < WINDOW_PAGE && Translate(v, va / PAGE).Some?
    requires var k := Translate(v, va / PAGE).value; InPool(v.frames, k) && k in v.frames.used
    ensures Present(Pde(v, va / PAGE / 1024)) && Munmap(v, va, 1) == (BorkdMem, v)
  {
    LpaFrame(v, va);
  }

  lemma SameTables(v: Mmu, v': Mmu)
    requires Sized(v) && Sized(v') && v.pd == v'.pd && forall d: nat :: d < 1024 ==> Pde(v', d) == Pde(v, d)
    ensures forall g: nat :: IsTable(v', g) <==> IsTable(v, g)
  {
    assert forall d: nat :: d < 1023 ==> Pde(v, d) == Pde(v', d);
  }

  /**
   * mmap and then munmap of at least two pages gives back exactly the data frames: what stays in use
   * is what was in use and the new tables.  All pages but the first stop translating; the first keeps
   * its entry, and so points at a frame that is free again.  Of a single page nothing is given back.
   */
  lemma MmapMunmap(v: Mmu, va: Word, n: nat)
    requires MmuOK(v) && n >= 1 && CanMmap(v, va / PAGE, n) && MappableRange(v, va / PAGE, n)
    ensures var v1, k := Mmap(v, va / PAGE, n), Chosen(v.frames, n);
            MmuOK(v1) && Present(Pde(v1, va / PAGE / 1024)) && var (status, v2) := Munmap(v1, va, n);
      && status == (if n == 1 then BorkdMem else Ok) && MmuOK(v2)
      && (forall g: nat :: g in v2.frames.used <==>
            g in v.frames.used || NewTable(v, v1, g) || (n == 1 && g == k))
      && Translate(v2, va / PAGE) == Some(k) && (k in v2.frames.used <==> n == 1)
      && (forall q: nat :: va / PAGE < q < va / PAGE + n ==> Translate(v2, q) == None)
      && TranslationsKept(v, v2, va / PAGE, va / PAGE + n)
  {
    hide UnmapRange, Mmap, CanMapRange, MapRange, Chosen, AllocFrames, IsTable, Translate, Lpa, Munmap;
    var p := va / PAGE;
    var v1, k := Mmap(v, p, n), Chosen(v.frames, n);
    MmapMaps(v, p, n);
    assert k in v1.frames.used;
    assert forall g: nat :: k <= g < k + n ==> InPool(v.frames, g) && !Claimed(v.frames, g);
    assert forall g: nat :: NewTable(v, v1, g) ==> IsTable(v1, g) by {
      NewTableIsTable(v, v1);
    }
    MunmapOK(v1, va, n, k);
  }

  /**
   * munmap of the same pages a second time, with nothing mapped in between, answers DOUBLE_FREE for two
   * pages or more, and changes neither a frame nor a translation.
   */
  lemma MunmapTwice(v: Mmu, va: Word, n: nat, k: nat)
    requires MmuOK(v) && n >= 2 && MappableRange(v, va / PAGE, n)
    requires Translate(v, va / PAGE) == Some(k) && InPool(v.frames, k) && k in v.frames.used
    requires forall g: nat :: k <= g < k + n ==> !IsTable(v, g)
    ensures Present(Pde(v, va / PAGE / 1024))
    ensures var v1 := Munmap(v, va, n).1;
      && Sized(v1) && Present(Pde(v1, va / PAGE / 1024)) && MmuOK(v1)
      && var (status, v2) := Munmap(v1, va, n);
      && status == DoubleFree && Sized(v2) && v2.frames == v1.frames
      && forall q: nat :: q < 0x10_0000 ==> Translate(v2, q) == Translate(v1, q)
  {
    MunmapOK(v, va, n, k);
    var v1 := Munmap(v, va, n).1;
    hide Munmap, MmuOK, Translate, IsTable;
    RefusedMunmap(v1, va, n, k);
  }

  /** munmap of pages whose first maps a frame of the pool that is not in use. */
  lemma RefusedMunmap(v: Mmu, va: Word, n: nat, k: nat)
    requires MmuOK(v) && n >= 1 && MappableRange(v, va / PAGE, n)
    requires Translate(v, va / PAGE) == Some(k) && InPool(v.frames, k) && k !in v.frames.used
    ensures Present(Pde(v, va / PAGE / 1024))
    ensures var (status, v') := Munmap(v, va, n);
      && status == DoubleFree && Sized(v') && v'.frames == v.frames
      && (forall q: nat :: q < 0x10_0000 ==>
            Translate(v', q) == if va / PAGE < q < va / PAGE + n then None else Translate(v, q))
  {
    MappedHere(v, va / PAGE);
    hide Translate, UnmapRange, Lpa, MmuOK;
    LpaFrame(v, va);
    UnmapRangeOK(v, va / PAGE + 1, n - 1);
    var u := UnmapRange(v, va / PAGE + 1, n - 1);
    assert Munmap(v, va, n).1 == u;
  }

  lemma NewTableIsTable(v: Mmu, v': Mmu)
    requires Sized(v) && Sized(v')
    ensures forall g: nat :: NewTable(v, v', g) ==> IsTable(v', g)
  {
  }
}
