/** What the header stores of kmalloc and kfree do to memory, as functions, and that the list survives them. */
module HeapSteps {
  import opened Words
  import opened HeapChain
  import opened HeapMemory

  // ---------------------------------------------------------------------------
  // Splitting (kernel/mm/kmalloc.c:122-137)
  // ---------------------------------------------------------------------------

  /** The five stores that make a header. */
  function WithHeader(flat: seq<Word>, a: nat, free: Word, magic: Word, next: Word, prev: Word,
      size: Word): (flat': seq<Word>)
    requires a + HDR <= |flat|
    ensures |flat'| == |flat|
    ensures flat'[a + FREE] == free && flat'[a + MAGIC] == magic && flat'[a + NEXT] == next
        && flat'[a + PREV] == prev && flat'[a + SIZE] == size
    ensures forall k :: 0 <= k < |flat| && !(a <= k < a + HDR) ==> flat'[k] == flat[k]
  {
    flat[a + SIZE := size][a + FREE := free][a + MAGIC := magic][a + NEXT := next][a + PREV := prev]
  }

  /** The link from the block behind, when there is one. */
  function WithPrev(flat: seq<Word>, chain: seq<Block>, j: nat, w: Word): (flat': seq<Word>)
    requires j < |chain| ==> chain[j].addr + PREV < |flat|
    ensures |flat'| == |flat|
  {
    if j < |chain| then flat[chain[j].addr + PREV := w] else flat
  }

  function Halves(b: Block, words: nat): seq<Block>
    requires b.size >= words + HDR
  {
    [Block(b.addr, words, true, 0), Block(b.addr + HDR + words, b.size - HDR - words, true, b.absorbed)]
  }

  predicate CanSplit(flat: seq<Word>, base: nat, chain: seq<Block>, i: nat, words: nat) {
    && i < |chain| && chain[i].free && Splits(chain[i], words)
    && base + 4 * |flat| < MEMORY_LIMIT && chain[i].End() <= |flat|
    && (i + 1 < |chain| ==> chain[i + 1].addr + PREV < |flat|)
  }

  function SplitFlat(flat: seq<Word>, base: nat, chain: seq<Block>, i: nat, words: nat): (flat': seq<Word>)
    requires CanSplit(flat, base, chain, i, words)
    ensures |flat'| == |flat|
  {
    var a := chain[i].addr;
    var s := a + HDR + words;
    var f1 := WithHeader(flat, s, 1, B00BBABE, flat[a + NEXT], Ptr(base, a), 4 * (chain[i].size - HDR - words));
    WithPrev(f1, chain, i + 1, Ptr(base, s))[a + NEXT := Ptr(base, s)][a + SIZE := 4 * words]
  }

  lemma SplitWords(flat: seq<Word>, base: nat, chain: seq<Block>, i: nat, words: nat, next: nat, prev: nat)
    requires CanSplit(flat, base, chain, i, words) && Header(flat, chain[i], next, prev)
    requires i + 1 < |chain| ==> chain[i].End() <= chain[i + 1].addr
    ensures var flat', mid := SplitFlat(flat, base, chain, i, words), Halves(chain[i], words);
      && Header(flat', mid[0], Ptr(base, mid[1].addr), prev)
      && Header(flat', mid[1], next, Ptr(base, mid[0].addr))
      && OnlyWithin(flat, flat', chain[i].addr, chain[i].End(), PrevWord(flat, chain, i + 1))
      && (i + 1 < |chain| ==> flat'[chain[i + 1].addr + PREV] == Ptr(base, mid[1].addr))
      && flat'[mid[1].addr + 1] == 0xb00b_babe && flat'[mid[0].addr + 1] == flat[chain[i].addr + 1]
  {
  }

  lemma SplitListed(flat: seq<Word>, base: nat, chain: seq<Block>, i: nat, words: nat)
    requires Listed(flat, base, chain) && CanSplit(flat, base, chain, i, words)
    ensures var flat', mid := SplitFlat(flat, base, chain, i, words), Halves(chain[i], words);
      && Listed(flat', base, Spliced(chain, i, i + 1, mid))
      && OnlyWithin(flat, flat', chain[i].addr, chain[i].End(), PrevWord(flat, chain, i + 1))
  {
    hide SplitFlat, Header, OnlyWithin;
    var flat', mid, b := SplitFlat(flat, base, chain, i, words), Halves(chain[i], words), chain[i];
    var chain' := Spliced(chain, i, i + 1, mid);
    assert HeaderOK(flat, base, chain, i);
    if i + 1 < |chain| {
      Ordered(chain, |flat|, i, i + 1);
    }
    SplitWords(flat, base, chain, i, words, NextPtr(base, chain, i), PrevPtr(base, chain, i));
    SplicedTiled(chain, |flat|, i, i + 1, mid);
    assert chain'[i] == mid[0] && chain'[i + 1] == mid[1];
    assert i + 1 < |chain| ==> chain'[i + 2] == chain[i + 1];
    assert i > 0 ==> chain'[i - 1] == chain[i - 1];
    assert HeaderOK(flat', base, chain', i);
    assert HeaderOK(flat', base, chain', i + 1);
    SpliceListed(flat, flat', base, chain, i, i + 1, mid);
  }

  // ---------------------------------------------------------------------------
  // Marking a block (kernel/mm/kmalloc.c:141)
  // ---------------------------------------------------------------------------

  lemma MarkListed(flat: seq<Word>, base: nat, chain: seq<Block>, i: nat)
    requires Listed(flat, base, chain) && i < |chain|
    ensures chain[i].addr + HDR <= |flat|
    ensures var flat', mid := flat[chain[i].addr + FREE := 0], [chain[i].(free := false)];
      && Listed(flat', base, Spliced(chain, i, i + 1, mid))
      && OnlyWithin(flat, flat', chain[i].addr, chain[i].addr + HDR, |flat|)
  {
    hide Tiled;
    assert HeaderOK(flat, base, chain, i);
    var flat', mid := flat[chain[i].addr + FREE := 0], [chain[i].(free := false)];
    var chain' := Spliced(chain, i, i + 1, mid);
    if i + 1 < |chain| {
      Ordered(chain, |flat|, i, i + 1);
      assert HeaderOK(flat, base, chain, i + 1);
    }
    SplicedTiled(chain, |flat|, i, i + 1, mid);
    assert chain'[i] == mid[0];
    assert i + 1 < |chain| ==> chain'[i + 1] == chain[i + 1];
    assert i > 0 ==> chain'[i - 1] == chain[i - 1];
    assert HeaderOK(flat', base, chain', i);
    SpliceListed(flat, flat', base, chain, i, i + 1, mid);
  }

  // ---------------------------------------------------------------------------
  // Growing (kernel/mm/kmalloc.c:78-89)
  // ---------------------------------------------------------------------------

  /** `flat` is the grown memory, `words` the size before. */
  function GrowFlat(flat: seq<Word>, base: nat, chain: seq<Block>, words: nat): (flat': seq<Word>)
    requires words + HDR <= |flat| && base + 4 * |flat| < MEMORY_LIMIT
    requires chain != [] ==> chain[|chain| - 1].addr + HDR <= words
    ensures |flat'| == |flat|
  {
    var f1 := if chain != [] then flat[chain[|chain| - 1].addr + NEXT := Ptr(base, words)] else flat;
    WithHeader(f1, words, 1, DEADBEEF, 0, PrevPtr(base, chain, |chain|), 4 * (|flat| - words - HDR))
  }

  lemma GrowListed(flat0: seq<Word>, flat: seq<Word>, base: nat, chain: seq<Block>)
    requires Listed(flat0, base, chain) && flat0 <= flat && |flat0| + HDR <= |flat| && base + 4 * |flat| < MEMORY_LIMIT
    ensures chain != [] ==> chain[|chain| - 1].addr + HDR <= |flat0|
    ensures var flat', b := GrowFlat(flat, base, chain, |flat0|), Block(|flat0|, |flat| - |flat0| - HDR, true, 0);
      Listed(flat', base, chain + [b]) && OnlyLinked(flat0, flat', chain)
  {
    if chain != [] {
      Ordered(chain, |flat0|, |chain| - 1, |chain| - 1);
      assert HeaderOK(flat0, base, chain, |chain| - 1);
    }
    GrowLinks(flat0, flat, base, chain);
    AppendListed(flat0, GrowFlat(flat, base, chain, |flat0|), base, chain, Block(|flat0|, |flat| - |flat0| - HDR, true, 0));
  }

  lemma GrowLinks(flat0: seq<Word>, flat: seq<Word>, base: nat, chain: seq<Block>)
    requires flat0 <= flat && |flat0| + HDR <= |flat| && base + 4 * |flat| < MEMORY_LIMIT
    requires chain != [] ==> chain[|chain| - 1].addr + HDR <= |flat0|
    ensures var flat', b := GrowFlat(flat, base, chain, |flat0|), Block(|flat0|, |flat| - |flat0| - HDR, true, 0);
      && OnlyLinked(flat0, flat', chain) && Header(flat', b, 0, PrevPtr(base, chain, |chain|))
      && (chain != [] ==> flat'[chain[|chain| - 1].addr + NEXT] == Ptr(base, |flat0|))
      && flat'[b.addr + 1] == 0xdead_beef
  {
    assert forall k :: 0 <= k < |flat0| ==> flat0[k] == flat[k];
  }

  // ---------------------------------------------------------------------------
  // Freeing (kernel/mm/kmalloc.c:213-233)
  // ---------------------------------------------------------------------------

  predicate CanFree(flat: seq<Word>, base: nat, chain: seq<Block>, i: nat) {
    && i < |chain| && base + 4 * |flat| < MEMORY_LIMIT
    && (forall j :: 0 <= j < |chain| ==> chain[j].End() <= |flat|)
    && FreedBlock(chain, i).size <= |flat|
  }

  /** A merge rewrites two fields of the header that stays. */
  function WithLink(flat: seq<Word>, a: nat, next: Word, size: Word): (flat': seq<Word>)
    requires a + HDR <= |flat|
    ensures |flat'| == |flat| && OnlyWithin(flat, flat', a, a + HDR, |flat|)
    ensures flat'[a + NEXT] == next && flat'[a + SIZE] == size
    ensures flat'[a + MAGIC] == flat[a + MAGIC] && flat'[a + PREV] == flat[a + PREV]
  {
    flat[a + NEXT := next][a + SIZE := size]
  }

  /** The forward merge. */
  function FreeFlatNext(flat: seq<Word>, base: nat, chain: seq<Block>, i: nat): (flat': seq<Word>)
    requires CanFree(flat, base, chain, i)
    ensures |flat'| == |flat|
  {
    var a := chain[i].addr;
    if i + 1 < |chain| && chain[i + 1].free then
      WithLink(flat, a, flat[chain[i + 1].addr + NEXT], 4 * (chain[i].size + chain[i + 1].size))
    else flat
  }

  /** The backward merge, into the block before. */
  function FreeFlatPrev(flat: seq<Word>, base: nat, chain: seq<Block>, i: nat): (flat': seq<Word>)
    requires CanFree(flat, base, chain, i)
    ensures |flat'| == |flat|
  {
    var f := FreeFlatNext(flat, base, chain, i);
    var a := chain[i].addr;
    if i > 0 && chain[i - 1].free then
      WithLink(f, chain[i - 1].addr, f[a + NEXT], 4 * FreedBlock(chain, i).size)
    else f
  }

  /** The links from both neighbours and the free flag. */
  function FreeFlat(flat: seq<Word>, base: nat, chain: seq<Block>, i: nat): (flat': seq<Word>)
    requires CanFree(flat, base, chain, i)
    ensures |flat'| == |flat|
  {
    Relinked(FreeFlatPrev(flat, base, chain, i), base, chain, FreeLo(chain, i), FreeHi(chain, i))
  }

  lemma ListedCanFree(flat: seq<Word>, base: nat, chain: seq<Block>, i: nat)
    requires Listed(flat, base, chain) && base + 4 * |flat| < MEMORY_LIMIT && i < |chain|
    ensures CanFree(flat, base, chain, i)
  {
    forall j | 0 <= j < |chain|
      ensures chain[j].End() <= |flat|
    {
      Ordered(chain, |flat|, j, j);
    }
  }

  lemma FreeWordsNext(flat: seq<Word>, base: nat, chain: seq<Block>, i: nat)
    requires Listed(flat, base, chain) && CanFree(flat, base, chain, i)
    ensures var f, a, hi := FreeFlatNext(flat, base, chain, i), chain[i].addr, FreeHi(chain, i);
      && OnlyWithin(flat, f, a, a + HDR, |flat|)
      && f[a + NEXT] == NextPtr(base, chain, hi - 1) && f[a + MAGIC] == flat[a + MAGIC] && f[a + PREV] == flat[a + PREV]
      && f[a + SIZE] == 4 * (if hi == i + 2 then chain[i].size + chain[i + 1].size else chain[i].size)
  {
    assert HeaderOK(flat, base, chain, i);
    assert i + 1 < |chain| ==> HeaderOK(flat, base, chain, i + 1);
  }

  /** Memory changed within [a, end) only, and the header at a has these links and this size. */
  ghost predicate Merged(flat: seq<Word>, f: seq<Word>, a: nat, end: nat, next: nat, prev: nat, size: nat) {
    && a + HDR <= |f|
    && OnlyWithin(flat, f, a, end, |flat|)
    && f[a + NEXT] == next && f[a + PREV] == prev && f[a + SIZE] == size
    && (f[a + MAGIC] == DEADBEEF || f[a + MAGIC] == B00BBABE)
  }

  lemma HeaderAt(flat: seq<Word>, base: nat, chain: seq<Block>, j: nat)
    requires Listed(flat, base, chain) && j < |chain|
    ensures Tiled(chain, |flat|) && HeaderOK(flat, base, chain, j)
  {
  }

  lemma MergedInto(flat: seq<Word>, f: seq<Word>, p: nat, a: nat, end: nat, next: Word, prev: nat, size: Word, size': nat)
    requires Merged(flat, f, a, end, next, prev, size') && p + HDR <= a && a + HDR <= end
    requires flat[p + MAGIC] == DEADBEEF || flat[p + MAGIC] == B00BBABE
    ensures Merged(flat, WithLink(f, p, next, size), p, end, next, flat[p + PREV], size)
  {
    Untouched(flat, f, a, end, p);
  }

  lemma FreeWordsPrev(flat: seq<Word>, base: nat, chain: seq<Block>, i: nat)
    requires Listed(flat, base, chain) && CanFree(flat, base, chain, i)
    ensures var lo, hi := FreeLo(chain, i), FreeHi(chain, i);
      Merged(flat, FreeFlatPrev(flat, base, chain, i), chain[lo].addr, chain[hi - 1].End(),
        NextPtr(base, chain, hi - 1), PrevPtr(base, chain, lo), 4 * FreedBlock(chain, i).size)
  {
    hide FreeFlatNext, WithLink, Tiled, Listed, NextPtr;
    var f, a, hi := FreeFlatNext(flat, base, chain, i), chain[i].addr, FreeHi(chain, i);
    FreeWordsNext(flat, base, chain, i);
    HeaderAt(flat, base, chain, i);
    Ordered(chain, |flat|, i, hi - 1);
    assert Merged(flat, f, a, chain[hi - 1].End(), NextPtr(base, chain, hi - 1), PrevPtr(base, chain, i), f[a + SIZE]);
    if i > 0 && chain[i - 1].free {
      hide Merged, OnlyWithin;
      HeaderAt(flat, base, chain, i - 1);
      Ordered(chain, |flat|, i - 1, i);
      MergedInto(flat, f, chain[i - 1].addr, a, chain[hi - 1].End(), f[a + NEXT], PrevPtr(base, chain, i),
        4 * FreedBlock(chain, i).size, f[a + SIZE]);
    }
  }

  lemma Untouched(flat: seq<Word>, f: seq<Word>, lo: nat, hi: nat, p: nat)
    requires OnlyWithin(flat, f, lo, hi, |flat|) && p + HDR <= lo <= |flat|
    ensures f[p + PREV] == flat[p + PREV] && f[p + MAGIC] == flat[p + MAGIC] && f[p + NEXT] == flat[p + NEXT]
  {
  }

  lemma Widen(flat: seq<Word>, f: seq<Word>, g: seq<Word>, lo: nat, hi: nat, lo': nat, hi': nat, low: nat, high: nat, x: nat)
    requires OnlyWithin(flat, f, lo, hi, |flat|) && (g == f || OnlyWithin(f, g, lo', hi', x))
    requires low <= lo && hi <= high && low <= lo' && hi' <= high
    ensures OnlyWithin(flat, g, low, high, x)
  {
  }

  /** The last stores, on memory `f` that has the merged header already. */
  function Relinked(f: seq<Word>, base: nat, chain: seq<Block>, lo: nat, hi: nat): (flat': seq<Word>)
    requires lo < hi <= |chain|
    requires forall j :: 0 <= j < |chain| ==> chain[j].addr + HDR <= |f|
    requires base + 4 * |f| < MEMORY_LIMIT
    ensures |flat'| == |f|
  {
    var a := chain[lo].addr;
    var f1 := WithPrev(f, chain, hi, Ptr(base, a));
    var f2 := if lo > 0 then f1[chain[lo - 1].addr + NEXT := Ptr(base, a)] else f1;
    f2[a + FREE := 1]
  }

  lemma RelinkedWords(f: seq<Word>, base: nat, chain: seq<Block>, lo: nat, hi: nat)
    requires lo < hi <= |chain| && base + 4 * |f| < MEMORY_LIMIT
    requires forall j :: 0 <= j < |chain| ==> chain[j].addr + HDR <= |f|
    requires lo > 0 ==> chain[lo - 1].addr + HDR <= chain[lo].addr && f[chain[lo - 1].addr + NEXT] == Ptr(base, chain[lo].addr)
    requires hi < |chain| ==> chain[lo].addr + HDR <= chain[hi].addr
    ensures var flat', a := Relinked(f, base, chain, lo, hi), chain[lo].addr;
      && OnlyWithin(f, flat', a, a + HDR, PrevWord(f, chain, hi))
      && flat'[a + FREE] == 1 && flat'[a + MAGIC] == f[a + MAGIC] && flat'[a + NEXT] == f[a + NEXT]
      && flat'[a + PREV] == f[a + PREV] && flat'[a + SIZE] == f[a + SIZE]
      && (hi < |chain| ==> flat'[chain[hi].addr + PREV] == Ptr(base, a))
  {
  }

  lemma RelinkedMerged(flat: seq<Word>, f: seq<Word>, base: nat, chain: seq<Block>, lo: nat, hi: nat,
      end: nat, next: nat, prev: nat, c: Block)
    requires lo < hi <= |chain| && base + 4 * |f| < MEMORY_LIMIT
    requires forall j :: 0 <= j < |chain| ==> chain[j].addr + HDR <= |f|
    requires Merged(flat, f, chain[lo].addr, end, next, prev, 4 * c.size) && chain[lo].addr + HDR <= end
    requires c.addr == chain[lo].addr && c.free
    requires lo > 0 ==> chain[lo - 1].addr + HDR <= chain[lo].addr && flat[chain[lo - 1].addr + NEXT] == Ptr(base, chain[lo].addr)
    requires hi < |chain| ==> end <= chain[hi].addr
    ensures var flat' := Relinked(f, base, chain, lo, hi);
      && Header(flat', c, next, prev)
      && OnlyWithin(flat, flat', chain[lo].addr, end, PrevWord(flat, chain, hi))
      && (hi < |chain| ==> flat'[chain[hi].addr + PREV] == Ptr(base, chain[lo].addr))
  {
    hide Relinked;
    var a, x := chain[lo].addr, PrevWord(flat, chain, hi);
    if lo > 0 {
      Untouched(flat, f, a, end, chain[lo - 1].addr);
    }
    RelinkedWords(f, base, chain, lo, hi);
    Widen(flat, f, Relinked(f, base, chain, lo, hi), a, end, a, a + HDR, a, end, x);
  }

  lemma FreeWords(flat: seq<Word>, base: nat, chain: seq<Block>, i: nat)
    requires Listed(flat, base, chain) && CanFree(flat, base, chain, i)
    ensures var flat', lo, hi := FreeFlat(flat, base, chain, i), FreeLo(chain, i), FreeHi(chain, i);
      && Header(flat', FreedBlock(chain, i), NextPtr(base, chain, hi - 1), PrevPtr(base, chain, lo))
      && OnlyWithin(flat, flat', chain[lo].addr, chain[hi - 1].End(), PrevWord(flat, chain, hi))
      && (hi < |chain| ==> flat'[chain[hi].addr + PREV] == Ptr(base, chain[lo].addr))
  {
    hide FreeFlatPrev, Relinked, FreedBlock, FreeLo, FreeHi, Tiled, OnlyWithin, Merged, Header, Listed;
    var lo, hi := FreeLo(chain, i), FreeHi(chain, i);
    FreeWordsPrev(flat, base, chain, i);
    FreedAddr(chain, i);
    HeaderAt(flat, base, chain, lo);
    Ordered(chain, |flat|, lo, hi - 1);
    if lo > 0 {
      LinkedTo(flat, base, chain, lo);
    }
    if hi < |chain| {
      Ordered(chain, |flat|, hi - 1, hi);
    }
    RelinkedMerged(flat, FreeFlatPrev(flat, base, chain, i), base, chain, lo, hi, chain[hi - 1].End(),
      NextPtr(base, chain, hi - 1), PrevPtr(base, chain, lo), FreedBlock(chain, i));
  }

  lemma LinkedTo(flat: seq<Word>, base: nat, chain: seq<Block>, j: nat)
    requires Listed(flat, base, chain) && 0 < j < |chain|
    ensures chain[j - 1].addr + HDR <= chain[j].addr <= |flat| && flat[chain[j - 1].addr + NEXT] == Ptr(base, chain[j].addr)
  {
    HeaderAt(flat, base, chain, j - 1);
    Ordered(chain, |flat|, j - 1, j);
  }

  lemma FreeListed(flat: seq<Word>, base: nat, h: Heap, i: nat)
    requires Listed(flat, base, h.chain) && CanFree(flat, base, h.chain, i) && HeapOK(h) && h.words == |flat|
    ensures var flat', chain := FreeFlat(flat, base, h.chain, i), h.chain;
      && Listed(flat', base, Free(h, i).chain)
      && OnlyWithin(flat, flat', chain[FreeLo(chain, i)].addr, chain[FreeHi(chain, i) - 1].End(), PrevWord(flat, chain, FreeHi(chain, i)))
  {
    hide FreeFlat, OnlyWithin, Free, FreedBlock;
    var chain := h.chain;
    var flat', lo, hi, c := FreeFlat(flat, base, chain, i), FreeLo(chain, i), FreeHi(chain, i), FreedBlock(chain, i);
    FreeWords(flat, base, chain, i);
    FreeIsSplice(h, i);
    FreeOK(h, i);
    FreedAddr(chain, i);
    var chain' := Spliced(chain, lo, hi, [c]);
    assert chain'[lo] == c;
    assert lo > 0 ==> chain'[lo - 1] == chain[lo - 1];
    assert hi < |chain| ==> chain'[lo + 1] == chain[hi];
    assert HeaderOK(flat', base, chain', lo);
    SpliceListed(flat, flat', base, chain, lo, hi, [c]);
  }

  lemma FreedAddr(chain: seq<Block>, i: nat)
    requires i < |chain|
    ensures FreedBlock(chain, i).addr == chain[FreeLo(chain, i)].addr && FreedBlock(chain, i).free
  {
  }

  /** Where the blocks around block i lie. */
  lemma Around(flat: seq<Word>, base: nat, chain: seq<Block>, i: nat)
    requires Listed(flat, base, chain) && CanFree(flat, base, chain, i)
    ensures i < |chain| && 4 * FreedBlock(chain, i).size < MEMORY_LIMIT
    ensures i + 1 < |chain| && chain[i + 1].free ==> 4 * (chain[i].size + chain[i + 1].size) < MEMORY_LIMIT
    ensures var lo, hi := FreeLo(chain, i), FreeHi(chain, i);
      && chain[lo].addr + HDR <= |flat| && chain[i].addr + HDR <= |flat| && base + 4 * |flat| < MEMORY_LIMIT
      && (i > 0 ==> chain[i - 1].addr + HDR <= chain[i].addr)
      && (i + 1 < |chain| ==> chain[i].addr + HDR <= chain[i + 1].addr && chain[i + 1].addr + HDR <= |flat|)
      && (lo > 0 ==> chain[lo - 1].addr + HDR <= chain[lo].addr)
      && (hi < |chain| ==> chain[lo].addr + HDR <= chain[hi].addr && chain[hi].addr + HDR <= |flat|)
  {
    var lo, hi := FreeLo(chain, i), FreeHi(chain, i);
    Ordered(chain, |flat|, lo, i);
    if i > 0 {
      Ordered(chain, |flat|, i - 1, i);
    }
    if i + 1 < |chain| {
      Ordered(chain, |flat|, i, i + 1);
    }
    if lo > 0 {
      Ordered(chain, |flat|, lo - 1, lo);
    }
    if hi < |chain| {
      Ordered(chain, |flat|, lo, hi);
    }
  }

  /** What the headers of block i and its neighbours say. */
  lemma Neighbours(flat: seq<Word>, base: nat, chain: seq<Block>, i: nat)
    requires Listed(flat, base, chain) && CanFree(flat, base, chain, i)
    ensures Header(flat, chain[i], NextPtr(base, chain, i), PrevPtr(base, chain, i))
    ensures i > 0 ==> Header(flat, chain[i - 1], Ptr(base, chain[i].addr), PrevPtr(base, chain, i - 1))
    ensures i + 1 < |chain| ==> Header(flat, chain[i + 1], NextPtr(base, chain, i + 1), Ptr(base, chain[i].addr))
  {
    hide Header;
    assert HeaderOK(flat, base, chain, i);
    assert i > 0 ==> HeaderOK(flat, base, chain, i - 1);
    assert i + 1 < |chain| ==> HeaderOK(flat, base, chain, i + 1);
  }

  // ---------------------------------------------------------------------------
  // kmalloc as a whole
  // ---------------------------------------------------------------------------

  /** A block that fits is handed out: list, memory and clients' map. */
  lemma PlaceDone(flat: seq<Word>, mid: seq<Word>, flat': seq<Word>, base: nat, h: Heap, i: nat, words: nat)
    requires Listed(flat, base, h.chain) && HeapOK(h) && h.words == |flat|
    requires i < |h.chain| && h.chain[i].free && h.chain[i].size >= words
    requires if Splits(h.chain[i], words) then OnlyWithin(flat, mid, h.chain[i].addr, h.chain[i].End(),
        PrevWord(flat, h.chain, i + 1))
             else mid == flat
    requires h.chain[i].addr < |mid| && flat' == mid[h.chain[i].addr + FREE := 0]
    requires Listed(flat', base, Place(h.chain, i, words))
    ensures var h' := h.(chain := Place(h.chain, i, words));
      && HeapOK(h') && i < |h'.chain| && h'.chain[i].addr == h.chain[i].addr
      && HandedOut(Contents(flat, h.chain), Contents(flat', h'.chain), h.chain[i].Payload(), words)
  {
    hide Listed, Contents, Chunk, Place;
    PlaceOK(h.chain, h.words, i, words);
    assert OnlyWithin(flat, flat', h.chain[i].addr, h.chain[i].End(), PrevWord(flat, h.chain, i + 1));
    PlaceContents(flat, flat', base, h.chain, i, words);
    PlacedHead(h.chain, i, words);
  }

  /** A block is appended and handed out. */
  lemma GrowDone(flat: seq<Word>, mid: seq<Word>, flat': seq<Word>, base: nat, h: Heap, words: nat)
    requires Listed(flat, base, h.chain) && HeapOK(h) && h.words == |flat|
    requires OnlyLinked(flat, mid, h.chain) && |flat| < |mid| && flat' == mid[|flat| + FREE := 0]
    requires Listed(flat', base, Append(h, 4 * words, false).chain)
    ensures HeapOK(Append(h, 4 * words, false))
    ensures HandedOut(Contents(flat, h.chain), Contents(flat', Append(h, 4 * words, false).chain), |flat| + HDR, words)
  {
    hide Listed, Contents, Chunk;
    AppendOK(h, 4 * words, false);
    AppendContents(flat, flat', base, h.chain, Fresh(h, 4 * words, false));
  }
}
