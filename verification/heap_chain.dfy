/** The block list of the kernel heap as a value, and what kmalloc and kfree make of it. Units are 4-byte words. */
module HeapChain {

  const HDR := 5   // sizeof(struct _malloc_h) / 4

  /** A block: where its header is, the payload size, and how many headers it swallowed when blocks merged. */
  datatype Block = Block(addr: nat, size: nat, free: bool, absorbed: nat) {
    function Payload(): nat { addr + HDR }
    function End(): nat { addr + HDR + size + HDR * absorbed }
  }

  /** The list, the heap's size, _min_heap_size (in bytes), and the number of merges so far. */
  datatype Heap = Heap(chain: seq<Block>, words: nat, min: nat, merges: nat)

  // ---------------------------------------------------------------------------
  // kmalloc
  // ---------------------------------------------------------------------------

  /** kmalloc rounds a length in bytes up to 16. */
  function RoundedWords(length: nat): nat {
    (length + 15) / 16 * 4
  }

  /** __new_blockspace: whole pages, more than the payload and its header need. */
  function GrowthPages(size: nat): nat {
    (size + 4 * HDR + 4096) / 4096
  }

  /** __find_free_block */
  function FirstFit(chain: seq<Block>, size: nat): (i: nat)
    ensures i <= |chain|
    ensures i < |chain| ==> chain[i].free && chain[i].size >= size
    ensures forall j :: 0 <= j < i ==> !(chain[j].free && chain[j].size >= size)
  {
    if chain == [] || (chain[0].free && chain[0].size >= size) then 0
    else 1 + FirstFit(chain[1..], size)
  }

  /** Whether kmalloc carves the block in two. */
  predicate Splits(b: Block, size: nat) {
    b.size > 64 + size + HDR
  }

  /** Blocks i to j - 1 give way to `mid`. */
  function Spliced(chain: seq<Block>, i: nat, j: nat, mid: seq<Block>): seq<Block>
    requires i <= j <= |chain|
  {
    chain[..i] + mid + chain[j..]
  }

  /** What becomes of a block that is handed out: it is split if that saves enough. */
  function Placed(b: Block, size: nat): seq<Block> {
    if Splits(b, size) then
      [Block(b.addr, size, false, 0), Block(b.addr + HDR + size, b.size - HDR - size, true, b.absorbed)]
    else [b.(free := false)]
  }

  function Place(chain: seq<Block>, i: nat, size: nat): seq<Block>
    requires i < |chain|
  {
    Spliced(chain, i, i + 1, Placed(chain[i], size))
  }

  /** The block that a growth by `size` bytes appends. */
  function Fresh(h: Heap, size: nat, free: bool): Block {
    Block(h.words, GrowthPages(size) * 1024 - HDR, free, 0)
  }

  function Append(h: Heap, size: nat, free: bool): Heap {
    h.(chain := h.chain + [Fresh(h, size, free)], words := h.words + GrowthPages(size) * 1024)
  }

  /** The heap after __new_blockspace on the first call of kmalloc. */
  function Started(h: Heap, size: nat): Heap {
    var min := if 4 * size > h.min then 4 * size else h.min;
    Append(h.(min := min), min, true)
  }

  /** The heap after kmalloc of `size` words, and the index of the block that it hands out. */
  function Malloc(h: Heap, size: nat): (r: (Heap, nat))
    ensures r.1 < |r.0.chain|
  {
    if h.chain == [] then
      var h1 := Started(h, size);
      (h1.(chain := Place(h1.chain, 0, size)), 0)
    else
      var i := FirstFit(h.chain, size);
      if i == |h.chain| then (Append(h, 4 * size, false), i)
      else (h.(chain := Place(h.chain, i, size)), i)
  }

  // ---------------------------------------------------------------------------
  // kfree
  // ---------------------------------------------------------------------------

  /** Two neighbours become one free block; the second header stays behind inside it. */
  function Merge(a: Block, b: Block): Block {
    Block(a.addr, a.size + b.size, true, a.absorbed + b.absorbed + 1)
  }

  function FreeNext(h: Heap, i: nat): Heap
    requires i < |h.chain|
  {
    if i + 1 < |h.chain| && h.chain[i + 1].free then
      h.(chain := Spliced(h.chain, i, i + 2, [Merge(h.chain[i], h.chain[i + 1])]), merges := h.merges + 1)
    else h.(chain := Spliced(h.chain, i, i + 1, [h.chain[i].(free := true)]))
  }

  function FreePrev(h: Heap, i: nat): Heap
    requires i < |h.chain|
  {
    if i > 0 && h.chain[i - 1].free then
      h.(chain := Spliced(h.chain, i - 1, i + 1, [Merge(h.chain[i - 1], h.chain[i])]), merges := h.merges + 1)
    else h
  }

  /** kfree of block i: merge forward, then backward. */
  function Free(h: Heap, i: nat): Heap
    requires i < |h.chain|
  {
    FreePrev(FreeNext(h, i), i)
  }

  // ---------------------------------------------------------------------------
  // The invariant
  // ---------------------------------------------------------------------------

  /** Blocks follow each other from word 0 to the end; what lies between two is whole headers. */
  ghost predicate Tiled(chain: seq<Block>, words: nat) {
    && (chain == [] ==> words == 0)
    && (chain != [] ==> chain[0].addr == 0 && chain[|chain| - 1].End() == words)
    && forall j :: 0 < j < |chain| ==> chain[j - 1].End() == chain[j].addr
  }

  ghost predicate NoTwins(chain: seq<Block>) {
    forall j :: 0 < j < |chain| ==> !(chain[j - 1].free && chain[j].free)
  }

  function Absorbed(chain: seq<Block>): nat {
    if chain == [] then 0 else chain[0].absorbed + Absorbed(chain[1..])
  }

  function Covered(chain: seq<Block>): nat {
    if chain == [] then 0 else chain[0].size + HDR + Covered(chain[1..])
  }

  ghost predicate HeapOK(h: Heap) {
    && Tiled(h.chain, h.words) && NoTwins(h.chain)
    && Absorbed(h.chain) == h.merges
    && h.words % 1024 == 0
  }

  lemma {:induction false} AbsorbedConcat(a: seq<Block>, b: seq<Block>)
    ensures Absorbed(a + b) == Absorbed(a) + Absorbed(b)
    ensures Covered(a + b) == Covered(a) + Covered(b)
  {
    if a == [] {
      assert a + b == b;
    } else {
      assert (a + b)[1..] == a[1..] + b;
      AbsorbedConcat(a[1..], b);
    }
  }

  /** Exact accounting: payloads, headers and swallowed headers make up the whole heap. */
  lemma {:induction false} Conservation(h: Heap)
    requires HeapOK(h)
    ensures Covered(h.chain) + HDR * h.merges == h.words
  {
    PrefixCovered(h.chain, h.words, |h.chain|);
    assert h.chain[..|h.chain|] == h.chain;
  }

  lemma {:induction false} PrefixCovered(chain: seq<Block>, words: nat, n: nat)
    requires Tiled(chain, words) && n <= |chain|
    ensures Covered(chain[..n]) + HDR * Absorbed(chain[..n]) == if n == |chain| then words else chain[n].addr
  {
    if n > 0 {
      PrefixCovered(chain, words, n - 1);
      assert chain[..n] == chain[..n - 1] + [chain[n - 1]];
      AbsorbedConcat(chain[..n - 1], [chain[n - 1]]);
      assert [chain[n - 1]][1..] == [];
    }
  }

  /** Blocks stand in address order and do not overlap. */
  lemma {:induction false} Ordered(chain: seq<Block>, words: nat, i: nat, j: nat)
    requires Tiled(chain, words) && i <= j < |chain|
    ensures i < j ==> chain[i].End() <= chain[j].addr
    ensures chain[j].End() <= words
    decreases |chain| - i, 0
  {
    if i < j {
      Ordered(chain, words, i + 1, j);
    } else if j + 1 < |chain| {
      OrderedEnd(chain, words, j);
    }
  }

  lemma {:induction false} OrderedEnd(chain: seq<Block>, words: nat, j: nat)
    requires Tiled(chain, words) && j < |chain|
    ensures chain[j].End() <= words
    decreases |chain| - j
  {
    if j + 1 < |chain| {
      OrderedEnd(chain, words, j + 1);
    }
  }

  // ---------------------------------------------------------------------------
  // What a step does to the live blocks
  // ---------------------------------------------------------------------------

  ghost predicate Live(chain: seq<Block>, b: Block) {
    b in chain && !b.free
  }

  lemma SplicedIn(chain: seq<Block>, i: nat, j: nat, mid: seq<Block>)
    requires i <= j <= |chain|
    ensures chain == Spliced(chain, i, j, chain[i..j])
    ensures forall x :: x in Spliced(chain, i, j, mid) <==> x in chain[..i] || x in mid || x in chain[j..]
    ensures forall x :: x in chain <==> x in chain[..i] || x in chain[i..j] || x in chain[j..]
  {
    assert chain == chain[..i] + chain[i..j] + chain[j..];
  }

  lemma SplicedAbsorbed(chain: seq<Block>, i: nat, j: nat, mid: seq<Block>)
    requires i <= j <= |chain|
    ensures Absorbed(Spliced(chain, i, j, mid)) + Absorbed(chain[i..j]) == Absorbed(chain) + Absorbed(mid)
  {
    hide Absorbed, Covered;
    SplicedIn(chain, i, j, mid);
    AbsorbedConcat(chain[..i] + mid, chain[j..]);
    AbsorbedConcat(chain[..i], mid);
    AbsorbedConcat(chain[..i] + chain[i..j], chain[j..]);
    AbsorbedConcat(chain[..i], chain[i..j]);
  }

  /** A replacement that starts where the old blocks started, ends where they ended and has no gap. */
  lemma SplicedTiled(chain: seq<Block>, words: nat, i: nat, j: nat, mid: seq<Block>)
    requires Tiled(chain, words) && i < j <= |chain| && mid != []
    requires mid[0].addr == chain[i].addr && mid[|mid| - 1].End() == chain[j - 1].End()
    requires forall k :: 0 < k < |mid| ==> mid[k - 1].End() == mid[k].addr
    ensures Tiled(Spliced(chain, i, j, mid), words)
  {
  }

  lemma AbsorbedOne(b: Block)
    ensures Absorbed([b]) == b.absorbed
  {
    assert [b][1..] == [];
  }

  lemma AbsorbedTwo(a: Block, b: Block)
    ensures Absorbed([a, b]) == a.absorbed + b.absorbed
  {
    assert [a, b][1..] == [b];
    AbsorbedOne(b);
  }

  lemma PlaceOK(chain: seq<Block>, words: nat, i: nat, size: nat)
    requires Tiled(chain, words) && NoTwins(chain)
    requires i < |chain| && chain[i].free && chain[i].size >= size
    ensures var chain' := Place(chain, i, size);
      && Tiled(chain', words) && NoTwins(chain') && Absorbed(chain') == Absorbed(chain)
      && i < |chain'| && !chain'[i].free && chain'[i].size >= size && chain'[i].addr == chain[i].addr
  {
    hide Absorbed;
    var b, mid := chain[i], Placed(chain[i], size);
    assert chain[i..i + 1] == [b];
    AbsorbedOne(b);
    AbsorbedOne(mid[0]);
    if Splits(b, size) {
      AbsorbedTwo(mid[0], mid[1]);
    }
    SplicedAbsorbed(chain, i, i + 1, mid);
    SplicedTiled(chain, words, i, i + 1, mid);
  }

  /** Splitting first and marking afterwards comes to the same. */
  lemma SplitThenMark(chain: seq<Block>, i: nat, size: nat)
    requires i < |chain| && chain[i].free && Splits(chain[i], size)
    ensures var split := Spliced(chain, i, i + 1, [Block(chain[i].addr, size, true, 0), Placed(chain[i], size)[1]]);
      && i < |split| && split[i] == Block(chain[i].addr, size, true, 0)
      && Spliced(split, i, i + 1, [split[i].(free := false)]) == Place(chain, i, size)
  {
  }

  lemma PlaceLive(chain: seq<Block>, i: nat, size: nat)
    requires i < |chain| && chain[i].free && chain[i].size >= size
    ensures var chain' := Place(chain, i, size);
      i < |chain'| && forall b :: Live(chain', b) <==> Live(chain, b) || b == chain'[i]
  {
    SplicedIn(chain, i, i + 1, Placed(chain[i], size));
    assert chain[i..i + 1] == [chain[i]];
  }

  lemma AppendOK(h: Heap, size: nat, free: bool)
    requires HeapOK(h) && (free ==> h.chain == [])
    ensures HeapOK(Append(h, size, free))
    ensures forall b :: Live(Append(h, size, free).chain, b) <==> Live(h.chain, b) || (!free && b == Fresh(h, size, free))
    ensures 4 * Fresh(h, size, free).size >= size
  {
    var c := [Fresh(h, size, free)];
    AbsorbedConcat(h.chain, c);
    assert c[1..] == [];
  }

  /** kmalloc keeps the invariant, hands out a block that is large enough, and leaves every live block alone. */
  lemma MallocOK(h: Heap, size: nat)
    requires HeapOK(h)
    ensures var (h', i) := Malloc(h, size);
      && HeapOK(h')
      && !h'.chain[i].free && h'.chain[i].size >= size && h'.merges == h.merges
      && forall b :: Live(h'.chain, b) <==> Live(h.chain, b) || b == h'.chain[i]
  {
    if h.chain == [] {
      var h1 := Started(h, size);
      AppendOK(h.(min := h1.min), h1.min, true);
      PlaceOK(h1.chain, h1.words, 0, size);
      PlaceLive(h1.chain, 0, size);
    } else {
      var i := FirstFit(h.chain, size);
      if i == |h.chain| {
        AppendOK(h, 4 * size, false);
      } else {
        PlaceOK(h.chain, h.words, i, size);
        PlaceLive(h.chain, i, size);
      }
    }
  }

  /** No two blocks of a list are equal, so a live block is found at one index only. */
  lemma Distinct(chain: seq<Block>, words: nat, i: nat, j: nat)
    requires Tiled(chain, words) && i < |chain| && j < |chain| && i != j
    ensures chain[i].addr != chain[j].addr && (chain[i].Payload() != chain[j].Payload())
  {
    Ordered(chain, words, if i < j then i else j, if i < j then j else i);
  }

  lemma PositionOf(chain: seq<Block>, b: Block) returns (k: nat)
    requires b in chain
    ensures k < |chain| && chain[k] == b
  {
    k :| k < |chain| && chain[k] == b;
  }

  lemma RoundedTwice(length: nat)
    ensures RoundedWords(4 * RoundedWords(length)) == RoundedWords(length) && 4 * RoundedWords(length) >= length
    ensures (length + 15) / 16 * 16 == 4 * RoundedWords(length) && (length + 3) / 4 <= RoundedWords(length)
  {
  }

  /** The first call of kmalloc appends a free block, and the call after it finds that block. */
  lemma FirstCall(h: Heap, size: nat)
    requires HeapOK(h) && h.chain == []
    ensures h.words == 0 && HeapOK(Started(h, size)) && FirstFit(Started(h, size).chain, size) == 0
    ensures Malloc(Started(h, size), size) == Malloc(h, size)
  {
    var h1 := Started(h, size);
    AppendOK(h.(min := h1.min), h1.min, true);
    assert h1.chain == [Fresh(h, h1.min, true)];
  }

  // ---------------------------------------------------------------------------
  // Properties of kmalloc
  // ---------------------------------------------------------------------------

  /** A growth covers the payload and its header, by more than nothing and at most a page. */
  lemma GrowthExact(size: nat)
    ensures size + 4 * HDR < GrowthPages(size) * 4096 <= size + 4 * HDR + 4096
    ensures (size + 20 + 0x1000) / 0x1000 * 0x1000 == GrowthPages(size) * 4096
    ensures GrowthPages(size) * 4096 % 4096 == 0 && GrowthPages(size) * 4096 / 4096 == GrowthPages(size)
    ensures GrowthPages(size) * 4096 / 4 == GrowthPages(size) * 1024 && GrowthPages(size) >= 1
  {
  }

  /** kmalloc rounds up to the next multiple of 16 bytes, and no further. */
  lemma RoundedUp(length: nat)
    ensures length <= 4 * RoundedWords(length) < length + 16 && 4 * RoundedWords(length) % 16 == 0
  {
  }

  /** kmalloc grows the heap exactly when no free block is large enough, and otherwise takes the first one. */
  lemma MallocFirstFit(h: Heap, size: nat)
    requires HeapOK(h)
    ensures var (h', i) := Malloc(h, size);
      && (h'.words == h.words <==> exists j :: 0 <= j < |h.chain| && h.chain[j].free && h.chain[j].size >= size)
      && (h'.words == h.words ==> i == FirstFit(h.chain, size) && h'.chain[i].addr == h.chain[i].addr)
      && (h'.words != h.words ==> h'.chain[i].addr == h.words)
      && h'.words % 1024 == 0
  {
    MallocOK(h, size);
    GrowthExact(4 * size);
    GrowthExact(if 4 * size > h.min then 4 * size else h.min);
    var i := FirstFit(h.chain, size);
    assert h.chain != [] && i < |h.chain| ==> Malloc(h, size).0.chain[i].addr == h.chain[i].addr;
  }

  /**
   * How much a growth adds.  Later calls add the payload, its 20-byte header and at most a page, and the
   * block handed out is all of the new space; the first call does the same for the larger of the
   * request and the minimum, which it records.
   */
  lemma MallocGrowth(h: Heap, size: nat)
    requires HeapOK(h)
    ensures var (h', i) := Malloc(h, size);
      var asked := if h.chain == [] && h.min > 4 * size then h.min else 4 * size;
      && (h'.words != h.words ==>
            && asked + 20 < 4 * (h'.words - h.words) <= asked + 20 + 4096
            && h'.chain[i].addr == h.words
            && (h.chain != [] ==> i == |h.chain| == |h'.chain| - 1 && h'.chain[i].End() == h'.words))
      && (h.chain == [] ==> h'.words != h.words)
      && h'.min == (if h.chain == [] then asked else h.min)
  {
    hide FirstFit, Absorbed;
    GrowthExact(4 * size);
    GrowthExact(if 4 * size > h.min then 4 * size else h.min);
    MallocFirstFit(h, size);
  }

  /**
   * A block that is taken from the list wastes at most 64 words and a header.  It is split exactly
   * when it would waste more; both halves then fill its place, and the free one has over 256 bytes.
   */
  lemma WasteBounded(h: Heap, size: nat)
    requires HeapOK(h) && FirstFit(h.chain, size) < |h.chain|
    ensures var (h', i) := Malloc(h, size);
      var b, split := h.chain[i], |h'.chain| == |h.chain| + 1;
      && size <= h'.chain[i].size <= size + 64 + HDR
      && (split <==> b.size > size + 64 + HDR)
      && (if split then
            && h'.chain[i].size == size && h'.chain[i + 1].free && 4 * h'.chain[i + 1].size > 256
            && h'.chain[i + 1].addr == h'.chain[i].End() && h'.chain[i + 1].End() == b.End()
          else |h'.chain| == |h.chain| && h'.chain[i] == b.(free := false))
  {
    hide FirstFit, HeapOK;
    var i := FirstFit(h.chain, size);
    assert Malloc(h, size).0.chain == h.chain[..i] + Placed(h.chain[i], size) + h.chain[i + 1..];
  }

  /**
   * kmalloc rounds sizes to 16 bytes, but headers have 20.  In a heap that starts on a 16-byte boundary
   * a payload in fresh pages is never aligned, being 4 bytes past such a boundary; one in an existing
   * block is aligned when its header is at a word 3 modulo 4.
   */
  lemma PayloadAligned(base: nat, h: Heap, size: nat)
    requires HeapOK(h) && base % 16 == 0
    ensures var (h', i) := Malloc(h, size);
      var fit, p := FirstFit(h.chain, size), base + 4 * h'.chain[i].Payload();
      && (fit == |h.chain| ==> p % 16 == 4)
      && (p % 16 == 0 <==> fit < |h.chain| && h.chain[fit].addr % 4 == 3)
  {
    hide FirstFit, GrowthPages;
    MallocFirstFit(h, size);
    var (h', i) := Malloc(h, size);
    assert (base + 4 * h'.chain[i].Payload()) % 16 == 0 <==> h'.chain[i].addr % 4 == 3;
    if h.chain == [] {
      FirstCall(h, size);
      assert FirstFit(h.chain, size) == 0;
    }
  }

  // ---------------------------------------------------------------------------
  // Properties of kfree
  // ---------------------------------------------------------------------------

  lemma FreeNextTiled(h: Heap, i: nat)
    requires HeapOK(h) && i < |h.chain|
    ensures Tiled(FreeNext(h, i).chain, h.words) && Absorbed(FreeNext(h, i).chain) == FreeNext(h, i).merges
  {
    hide Absorbed, Spliced;
    var b, chain := h.chain[i], h.chain;
    if i + 1 < |chain| && chain[i + 1].free {
      assert chain[i..i + 2] == [b, chain[i + 1]];
      AbsorbedTwo(b, chain[i + 1]);
      AbsorbedOne(Merge(b, chain[i + 1]));
      SplicedAbsorbed(chain, i, i + 2, [Merge(b, chain[i + 1])]);
      SplicedTiled(chain, h.words, i, i + 2, [Merge(b, chain[i + 1])]);
    } else {
      assert chain[i..i + 1] == [b];
      AbsorbedOne(b);
      AbsorbedOne(b.(free := true));
      SplicedAbsorbed(chain, i, i + 1, [b.(free := true)]);
      SplicedTiled(chain, h.words, i, i + 1, [b.(free := true)]);
    }
  }

  lemma FreeNextOK(h: Heap, i: nat)
    requires HeapOK(h) && i < |h.chain|
    ensures var h' := FreeNext(h, i);
      && Tiled(h'.chain, h'.words) && h'.words == h.words && i < |h'.chain| && h'.chain[i].free
      && Absorbed(h'.chain) == h'.merges
      && h'.chain[..i] == h.chain[..i] && h'.chain[i].addr == h.chain[i].addr
      && (forall j :: 0 < j < |h'.chain| && j != i ==> !(h'.chain[j - 1].free && h'.chain[j].free))
  {
    hide Absorbed, Tiled;
    FreeNextTiled(h, i);
  }

  lemma FreePrevOK(h: Heap, i: nat)
    requires Tiled(h.chain, h.words) && Absorbed(h.chain) == h.merges && h.words % 1024 == 0
    requires i < |h.chain| && h.chain[i].free
    requires forall j :: 0 < j < |h.chain| && j != i ==> !(h.chain[j - 1].free && h.chain[j].free)
    ensures HeapOK(FreePrev(h, i)) && FreePrev(h, i).words == h.words
  {
    hide Absorbed;
    var chain := h.chain;
    if i > 0 && chain[i - 1].free {
      var a, b := chain[i - 1], chain[i];
      assert chain[i - 1..i + 1] == [a, b];
      AbsorbedTwo(a, b);
      AbsorbedOne(Merge(a, b));
      SplicedAbsorbed(chain, i - 1, i + 1, [Merge(a, b)]);
      SplicedTiled(chain, h.words, i - 1, i + 1, [Merge(a, b)]);
    }
  }

  /** Replacing block i and free successors by a free block ends block i and no other. */
  lemma SplicedLive(chain: seq<Block>, i: nat, j: nat, c: Block)
    requires i < j <= |chain| && !chain[i].free && c.free
    requires forall k :: i < k < j ==> chain[k].free
    requires forall k :: 0 <= k < |chain| && k != i ==> chain[k] != chain[i]
    ensures forall b :: Live(Spliced(chain, i, j, [c]), b) <==> Live(chain, b) && b != chain[i]
  {
    SplicedIn(chain, i, j, [c]);
    hide Spliced;
    assert forall b :: b in chain[i..j] && !b.free ==> b == chain[i];
    assert chain[i] in chain[i..j];
    assert forall b :: b in chain[..i] || b in chain[j..] ==> b != chain[i];
  }

  lemma FreeNextLive(h: Heap, i: nat)
    requires i < |h.chain| && !h.chain[i].free
    requires forall j :: 0 <= j < |h.chain| && j != i ==> h.chain[j] != h.chain[i]
    ensures forall b :: Live(FreeNext(h, i).chain, b) <==> Live(h.chain, b) && b != h.chain[i]
  {
    hide Live, Spliced;
    if i + 1 < |h.chain| && h.chain[i + 1].free {
      SplicedLive(h.chain, i, i + 2, Merge(h.chain[i], h.chain[i + 1]));
    } else {
      SplicedLive(h.chain, i, i + 1, h.chain[i].(free := true));
    }
  }

  lemma FreePrevLive(h: Heap, i: nat)
    requires i < |h.chain| && h.chain[i].free
    ensures forall b :: Live(FreePrev(h, i).chain, b) <==> Live(h.chain, b)
  {
    var chain := h.chain;
    if i > 0 && chain[i - 1].free {
      SplicedIn(chain, i - 1, i + 1, [Merge(chain[i - 1], chain[i])]);
      assert forall b :: b in chain[i - 1..i + 1] ==> b.free;
    }
  }

  /** kfree keeps the invariant and ends exactly one live block: the one it is given. */
  lemma FreeOK(h: Heap, i: nat)
    requires HeapOK(h) && i < |h.chain|
    ensures HeapOK(Free(h, i)) && Free(h, i).words == h.words
    ensures !h.chain[i].free ==> forall b :: Live(Free(h, i).chain, b) <==> Live(h.chain, b) && b != h.chain[i]
    ensures h.chain[i].free ==> Free(h, i) == h
  {
    var h1 := FreeNext(h, i);
    FreeNextOK(h, i);
    FreePrevOK(h1, i);
    if !h.chain[i].free {
      forall j | 0 <= j < |h.chain| && j != i
        ensures h.chain[j] != h.chain[i]
      {
        Distinct(h.chain, h.words, i, j);
      }
      FreeNextLive(h, i);
      FreePrevLive(h1, i);
    }
  }

  /** The blocks that kfree of block i turns into one: from FreeLo to FreeHi - 1. */
  function FreeLo(chain: seq<Block>, i: nat): (lo: nat)
    requires i < |chain|
    ensures lo <= i
  {
    if i > 0 && chain[i - 1].free then i - 1 else i
  }

  function FreeHi(chain: seq<Block>, i: nat): (hi: nat)
    requires i < |chain|
    ensures i < hi <= |chain|
  {
    if i + 1 < |chain| && chain[i + 1].free then i + 2 else i + 1
  }

  function FreedBlock(chain: seq<Block>, i: nat): Block
    requires i < |chain|
  {
    var b := if i + 1 < |chain| && chain[i + 1].free then Merge(chain[i], chain[i + 1]) else chain[i].(free := true);
    if i > 0 && chain[i - 1].free then Merge(chain[i - 1], b) else b
  }

  /** Both merges together are one splice. */
  lemma FreeIsSplice(h: Heap, i: nat)
    requires i < |h.chain|
    ensures Free(h, i).chain == Spliced(h.chain, FreeLo(h.chain, i), FreeHi(h.chain, i), [FreedBlock(h.chain, i)])
  {
    var chain := h.chain;
    var hi := FreeHi(chain, i);
    var b := if i + 1 < |chain| && chain[i + 1].free then Merge(chain[i], chain[i + 1]) else chain[i].(free := true);
    assert FreeNext(h, i).chain == chain[..i] + [b] + chain[hi..];
  }

  function Sizes(chain: seq<Block>): nat {
    if chain == [] then 0 else chain[0].size + Sizes(chain[1..])
  }

  lemma {:induction false} SizesConcat(a: seq<Block>, b: seq<Block>)
    ensures Sizes(a + b) == Sizes(a) + Sizes(b)
  {
    if a == [] {
      assert a + b == b;
    } else {
      assert (a + b)[1..] == a[1..] + b;
      SizesConcat(a[1..], b);
    }
  }

  lemma {:induction false} CoveredIsSizes(chain: seq<Block>)
    ensures Covered(chain) == Sizes(chain) + 5 * |chain|
  {
    if chain != [] {
      CoveredIsSizes(chain[1..]);
    }
  }

  lemma SizesOne(b: Block)
    ensures Sizes([b]) == b.size
  {
    assert [b][1..] == [];
  }

  /** How many of the blocks next to block i are free. */
  function FreeNeighbours(chain: seq<Block>, i: nat): nat
    requires i < |chain|
  {
    (if i > 0 && chain[i - 1].free then 1 else 0) + (if i + 1 < |chain| && chain[i + 1].free then 1 else 0)
  }

  /** The block that results is as large as those it is made of, and swallows one header less than they are. */
  lemma FreedIsSum(chain: seq<Block>, i: nat)
    requires i < |chain|
    ensures var c, gone := FreedBlock(chain, i), chain[FreeLo(chain, i)..FreeHi(chain, i)];
      && c.free && c.addr == gone[0].addr && c.size == Sizes(gone)
      && |gone| == 1 + FreeNeighbours(chain, i) && c.absorbed == Absorbed(gone) + FreeNeighbours(chain, i)
  {
    var lo, hi := FreeLo(chain, i), FreeHi(chain, i);
    var gone, last := chain[lo..hi], [chain[hi - 1]];
    SizesOne(chain[hi - 1]);
    AbsorbedOne(chain[hi - 1]);
    if hi == lo + 1 {
      assert gone == last;
    } else if hi == lo + 2 {
      assert gone[1..] == last;
    } else {
      var rest := gone[1..];
      assert rest[1..] == last;
      assert Sizes(rest) == rest[0].size + Sizes(last) && Absorbed(rest) == rest[0].absorbed + Absorbed(last);
    }
  }

  /**
   * kfree neither adds nor loses payload: the sizes on the list have the same sum before and after.
   * Each free neighbour is one merge, and one block less on the list.
   */
  lemma FreeAccount(h: Heap, i: nat)
    requires i < |h.chain|
    ensures Sizes(Free(h, i).chain) == Sizes(h.chain)
    ensures Free(h, i).merges - h.merges == |h.chain| - |Free(h, i).chain| == FreeNeighbours(h.chain, i)
  {
    var chain, lo, hi, c := h.chain, FreeLo(h.chain, i), FreeHi(h.chain, i), FreedBlock(h.chain, i);
    FreeIsSplice(h, i);
    FreedIsSum(chain, i);
    FreeCount(h, i);
    hide Free, FreedBlock, FreeLo, FreeHi;
    assert chain == chain[..lo] + chain[lo..hi] + chain[hi..];
    SizesConcat(chain[..lo] + chain[lo..hi], chain[hi..]);
    SizesConcat(chain[..lo], chain[lo..hi]);
    SizesConcat(chain[..lo] + [c], chain[hi..]);
    SizesConcat(chain[..lo], [c]);
    SizesOne(c);
  }

  lemma FreeCount(h: Heap, i: nat)
    requires i < |h.chain|
    ensures Free(h, i).merges - h.merges == |h.chain| - |Free(h, i).chain| == FreeNeighbours(h.chain, i)
  {
    hide Merge;
  }

  lemma NotBothFree(chain: seq<Block>)
    requires NoTwins(chain)
    ensures |chain| > 1 ==> !chain[0].free || !chain[1].free
  {
    assert |chain| > 1 ==> !(chain[1 - 1].free && chain[1].free);
  }

  /** When nothing is live, one free block is left, short of the heap by its own and the swallowed headers. */
  lemma AllFree(h: Heap)
    requires HeapOK(h) && h.chain != [] && forall j :: 0 <= j < |h.chain| ==> h.chain[j].free
    ensures |h.chain| == 1 && h.chain[0].free && h.chain[0].addr == 0
    ensures h.chain[0].size + HDR + HDR * h.merges == h.words
  {
    NotBothFree(h.chain);
    assert h.chain == [h.chain[0]];
    AbsorbedOne(h.chain[0]);
  }

  /** kfree of the first of at most two blocks, the second of which is free, leaves one. */
  lemma FreeFirst(h: Heap)
    requires HeapOK(h) && 1 <= |h.chain| <= 2 && !h.chain[0].free && (|h.chain| == 2 ==> h.chain[1].free)
    ensures HeapOK(Free(h, 0)) && Free(h, 0).words == h.words
    ensures Free(h, 0).chain == [FreedBlock(h.chain, 0)] && FreedBlock(h.chain, 0).free
  {
    FreeOK(h, 0);
    FreeIsSplice(h, 0);
  }

  /** The first kmalloc on an empty heap places the block in the fresh pages. */
  lemma FirstMalloc(min: nat, size: nat)
    ensures var m := if 4 * size > min then 4 * size else min;
      var b, (h, i) := Fresh(Heap([], 0, m, 0), m, true), Malloc(Heap([], 0, min, 0), size);
      && HeapOK(h) && i == 0 && h.merges == 0 && h.words == GrowthPages(m) * 1024
      && h.chain == Placed(b, size) && !h.chain[0].free
  {
    var h0 := Heap([], 0, min, 0);
    MallocOK(h0, size);
    hide HeapOK, GrowthPages;
    var m := if 4 * size > min then 4 * size else min;
    var b := Fresh(h0, m, true);
    assert Started(h0, size).chain == [b];
    assert [b][..0] + Placed(b, size) + [b][1..] == Placed(b, size);
  }

  /** What init_kmalloc leaves, for any minimum heap size: all of the heap in one free block. */
  lemma InitHeap(min: nat)
    ensures var (h, i) := Malloc(Heap([], 0, min, 0), RoundedWords(11000));
      var h' := Free(h, i);
      && HeapOK(h') && |h'.chain| == 1 && h'.chain[0].free && h'.chain[0].addr == 0
      && h'.chain[0].size + HDR + HDR * h'.merges == h'.words
      && (min == 0 ==> h'.chain[0] == Block(0, 3062, true, 1) && h'.words == 3072)
  {
    hide HeapOK, Free, Malloc;
    var (h, i) := Malloc(Heap([], 0, min, 0), RoundedWords(11000));
    FirstMalloc(min, RoundedWords(11000));
    FreeFirst(h);
    AllFree(Free(h, i));
  }
}
