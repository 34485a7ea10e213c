/** The block list as it lies in memory: five header words in front of every payload, in the clients' own memory. */
module HeapMemory {
  import opened Words
  import opened HeapChain

  // include/kmalloc.h:34-40, in words
  const FREE := 0
  const MAGIC := 1
  const NEXT := 2
  const PREV := 3
  const SIZE := 4

  const DEADBEEF := 0xdead_beef
  const B00BBABE := 0xb00b_babe

  /** The address of word i of the heap. */
  function Ptr(base: nat, i: nat): nat {
    base + 4 * i
  }

  function NextPtr(base: nat, chain: seq<Block>, j: nat): nat {
    if j + 1 < |chain| then Ptr(base, chain[j + 1].addr) else 0
  }

  function PrevPtr(base: nat, chain: seq<Block>, j: nat): nat
    requires j <= |chain|
  {
    if j > 0 then Ptr(base, chain[j - 1].addr) else 0
  }

  /** The header at word a says what block b is and who its neighbours are. */
  ghost predicate Header(flat: seq<Word>, b: Block, next: nat, prev: nat) {
    && b.addr + HDR <= |flat|
    && flat[b.addr + FREE] == (if b.free then 1 else 0)
    && (flat[b.addr + MAGIC] == DEADBEEF || flat[b.addr + MAGIC] == B00BBABE)
    && flat[b.addr + NEXT] == next
    && flat[b.addr + PREV] == prev
    && flat[b.addr + SIZE] == 4 * b.size
  }

  /** The words of a header, in the order of struct _malloc_h. */
  lemma HeaderWords(flat: seq<Word>, b: Block, next: nat, prev: nat)
    requires b.addr + 5 <= |flat|
    ensures Header(flat, b, next, prev) <==>
      && flat[b.addr] == (if b.free then 1 else 0)
      && flat[b.addr + 1] in {0xdead_beef, 0xb00b_babe}
      && flat[b.addr + 2] == next && flat[b.addr + 3] == prev && flat[b.addr + 4] == 4 * b.size
  {
  }

  ghost predicate HeaderOK(flat: seq<Word>, base: nat, chain: seq<Block>, j: nat)
    requires j < |chain|
  {
    Header(flat, chain[j], NextPtr(base, chain, j), PrevPtr(base, chain, j))
  }

  /** Every block's header is in memory, doubly linked. */
  ghost predicate Listed(flat: seq<Word>, base: nat, chain: seq<Block>) {
    && Tiled(chain, |flat|)
    && forall j :: 0 <= j < |chain| ==> HeaderOK(flat, base, chain, j)
  }

  // ---------------------------------------------------------------------------
  // Writing to one place
  // ---------------------------------------------------------------------------

  /** Outside the words lo to hi - 1, and word x, memory is what it was. */
  ghost predicate OnlyWithin(flat: seq<Word>, flat': seq<Word>, lo: nat, hi: nat, x: nat) {
    && |flat'| == |flat|
    && forall k :: 0 <= k < |flat| && !(lo <= k < hi) && k != x ==> flat'[k] == flat[k]
  }

  /** The prev word of block j, or a place outside memory when there is no block j. */
  function PrevWord(flat: seq<Word>, chain: seq<Block>, j: nat): nat {
    if j < |chain| then chain[j].addr + PREV else |flat|
  }

  lemma HeaderKept(flat: seq<Word>, flat': seq<Word>, lo: nat, hi: nat, x: nat, b: Block, next: nat, prev: nat)
    requires Header(flat, b, next, prev) && OnlyWithin(flat, flat', lo, hi, x)
    requires b.addr + HDR <= lo || hi <= b.addr
    ensures x == b.addr + PREV ==> Header(flat', b, next, flat'[x])
    ensures !(b.addr <= x < b.addr + HDR) ==> Header(flat', b, next, prev)
  {
  }

  lemma HeaderBefore(flat: seq<Word>, flat': seq<Word>, base: nat, chain: seq<Block>, i: nat, j: nat,
      mid: seq<Block>, k: nat)
    requires Listed(flat, base, chain) && k < i < j <= |chain| && mid != []
    requires OnlyWithin(flat, flat', chain[i].addr, chain[j - 1].End(), PrevWord(flat, chain, j))
    requires mid[0].addr == chain[i].addr
    ensures HeaderOK(flat', base, Spliced(chain, i, j, mid), k)
  {
    hide Tiled, OnlyWithin, Header;
    var chain' := Spliced(chain, i, j, mid);
    Ordered(chain, |flat|, k, i);
    if j < |chain| {
      Ordered(chain, |flat|, i, j);
    }
    assert HeaderOK(flat, base, chain, k);
    HeaderKept(flat, flat', chain[i].addr, chain[j - 1].End(), PrevWord(flat, chain, j), chain[k],
      NextPtr(base, chain, k), PrevPtr(base, chain, k));
    assert chain'[k] == chain[k] && (k > 0 ==> chain'[k - 1] == chain[k - 1]);
    assert k + 1 < i ==> chain'[k + 1] == chain[k + 1];
  }

  lemma HeaderBehind(flat: seq<Word>, flat': seq<Word>, base: nat, chain: seq<Block>, i: nat, j: nat,
      mid: seq<Block>, k: nat)
    requires Listed(flat, base, chain) && i < j <= k < |chain| && mid != []
    requires OnlyWithin(flat, flat', chain[i].addr, chain[j - 1].End(), PrevWord(flat, chain, j))
    requires PrevWord(flat, chain, j) < |flat'| && flat'[PrevWord(flat, chain, j)] == Ptr(base, mid[|mid| - 1].addr)
    ensures HeaderOK(flat', base, Spliced(chain, i, j, mid), k - (j - i) + |mid|)
  {
    hide Tiled, OnlyWithin, Header;
    var chain', n := Spliced(chain, i, j, mid), k - (j - i) + |mid|;
    Ordered(chain, |flat|, j - 1, k);
    Ordered(chain, |flat|, j, k);
    assert HeaderOK(flat, base, chain, k);
    HeaderKept(flat, flat', chain[i].addr, chain[j - 1].End(), PrevWord(flat, chain, j), chain[k],
      NextPtr(base, chain, k), PrevPtr(base, chain, k));
    assert chain'[n] == chain[k] && (k + 1 < |chain| ==> chain'[n + 1] == chain[k + 1]);
    assert chain'[n - 1] == if k == j then mid[|mid| - 1] else chain[k - 1];
  }

  /**
   * Blocks i to j - 1 gave way to `mid`, and memory changed only there and in the prev link of the
   * block behind: then the new list is in memory if the headers of `mid` and that link are.
   */
  lemma SpliceListed(flat: seq<Word>, flat': seq<Word>, base: nat, chain: seq<Block>, i: nat, j: nat, mid: seq<Block>)
    requires Listed(flat, base, chain) && i < j <= |chain| && mid != []
    requires Tiled(Spliced(chain, i, j, mid), |flat|)
    requires OnlyWithin(flat, flat', chain[i].addr, chain[j - 1].End(), PrevWord(flat, chain, j))
    requires mid[0].addr == chain[i].addr
    requires j < |chain| ==> PrevWord(flat, chain, j) < |flat| && flat'[PrevWord(flat, chain, j)] == Ptr(base, mid[|mid| - 1].addr)
    requires forall k :: i <= k < i + |mid| ==> HeaderOK(flat', base, Spliced(chain, i, j, mid), k)
    ensures Listed(flat', base, Spliced(chain, i, j, mid))
  {
    hide Header;
    var chain' := Spliced(chain, i, j, mid);
    forall k | 0 <= k < |chain'|
      ensures HeaderOK(flat', base, chain', k)
    {
      if k < i {
        HeaderBefore(flat, flat', base, chain, i, j, mid, k);
      } else if k >= i + |mid| {
        HeaderBehind(flat, flat', base, chain, i, j, mid, k - |mid| + (j - i));
      }
    }
  }

  // ---------------------------------------------------------------------------
  // What the clients see: a map from live payloads to their contents
  // ---------------------------------------------------------------------------

  ghost function LivePtrs(chain: seq<Block>): set<nat> {
    set b | b in chain && !b.free :: b.Payload()
  }

  /** The payload at word p, as long as the header in front of it says. */
  ghost function Chunk(flat: seq<Word>, p: nat): seq<Word> {
    if HDR <= p <= |flat| && p + flat[p - HDR + SIZE] / 4 <= |flat| then flat[p..p + flat[p - HDR + SIZE] / 4] else []
  }

  ghost function Contents(flat: seq<Word>, chain: seq<Block>): map<nat, seq<Word>> {
    map p | p in LivePtrs(chain) :: Chunk(flat, p)
  }

  /** From map a to map a' the payload p was handed out, with at least `words` words, and nothing else changed. */
  ghost predicate HandedOut(a: map<nat, seq<Word>>, a': map<nat, seq<Word>>, p: nat, words: nat) {
    p !in a && p in a' && |a'[p]| >= words && a' == a[p := a'[p]]
  }

  lemma ChunkIs(flat: seq<Word>, base: nat, chain: seq<Block>, j: nat)
    requires Listed(flat, base, chain) && j < |chain|
    ensures var b := chain[j];
      b.End() <= |flat| && Chunk(flat, b.Payload()) == flat[b.Payload()..b.Payload() + b.size]
  {
    assert HeaderOK(flat, base, chain, j);
    Ordered(chain, |flat|, j, j);
  }

  /** Live payloads lie apart, and apart from every header. */
  lemma PayloadsApart(flat: seq<Word>, base: nat, chain: seq<Block>, j: nat, k: nat)
    requires Listed(flat, base, chain) && j < |chain| && k < |chain| && j != k
    ensures chain[j].Payload() + chain[j].size <= chain[k].addr || chain[k].Payload() + chain[k].size <= chain[j].addr
  {
    Ordered(chain, |flat|, if j < k then j else k, if j < k then k else j);
  }

  /** A splice leaves the contents of every other block alone. */
  lemma ChunkKept(flat: seq<Word>, flat': seq<Word>, base: nat, chain: seq<Block>, i: nat, j: nat, k: nat)
    requires Listed(flat, base, chain) && i < j <= |chain| && (k < i || j <= k < |chain|)
    requires OnlyWithin(flat, flat', chain[i].addr, chain[j - 1].End(), PrevWord(flat, chain, j))
    ensures Chunk(flat', chain[k].Payload()) == Chunk(flat, chain[k].Payload())
  {
    var b := chain[k];
    ChunkIs(flat, base, chain, k);
    Ordered(chain, |flat|, i, j - 1);
    if k < i {
      Ordered(chain, |flat|, k, i);
    } else {
      Ordered(chain, |flat|, j - 1, k);
      Ordered(chain, |flat|, j, k);
    }
    if j < |chain| {
      Ordered(chain, |flat|, j - 1, j);
    }
    forall t: nat | b.Payload() - 1 <= t < b.Payload() + b.size
      ensures flat'[t] == flat[t]
    {
    }
    assert flat'[b.Payload()..b.Payload() + b.size] == flat[b.Payload()..b.Payload() + b.size];
  }

  lemma LiveAt(chain: seq<Block>, p: nat) returns (k: nat)
    requires p in LivePtrs(chain)
    ensures k < |chain| && !chain[k].free && chain[k].Payload() == p
  {
    var b :| b in chain && !b.free && b.Payload() == p;
    k :| k < |chain| && chain[k] == b;
  }

  lemma LivePtrsAre(chain: seq<Block>, chain': seq<Block>, add: set<Block>, drop: set<Block>)
    requires forall b :: Live(chain', b) <==> (Live(chain, b) && b !in drop) || b in add
    ensures forall p :: p in LivePtrs(chain') ==> p in LivePtrs(chain) || exists b :: b in add && b.Payload() == p
    ensures forall b :: Live(chain, b) && b !in drop ==> b.Payload() in LivePtrs(chain')
    ensures forall b :: b in add ==> b.Payload() in LivePtrs(chain')
  {
    forall p | p in LivePtrs(chain')
      ensures p in LivePtrs(chain) || exists b :: b in add && b.Payload() == p
    {
      var k := LiveAt(chain', p);
      assert Live(chain', chain'[k]);
    }
    assert forall b :: Live(chain, b) && b !in drop ==> Live(chain', b);
    assert forall b :: b in add ==> Live(chain', b);
  }

  /** Handing out block i adds one payload to the map and changes no other. */
  lemma PlaceContents(flat: seq<Word>, flat': seq<Word>, base: nat, chain: seq<Block>, i: nat, size: nat)
    requires Listed(flat, base, chain) && i < |chain| && chain[i].free && chain[i].size >= size
    requires Listed(flat', base, Place(chain, i, size))
    requires OnlyWithin(flat, flat', chain[i].addr, chain[i].End(), PrevWord(flat, chain, i + 1))
    ensures var p := chain[i].Payload();
      && p !in Contents(flat, chain) && |Chunk(flat', p)| >= size
      && Contents(flat', Place(chain, i, size)) == Contents(flat, chain)[p := Chunk(flat', p)]
  {
    hide Header, OnlyWithin, Chunk, Place;
    var chain', p := Place(chain, i, size), chain[i].Payload();
    PlaceLive(chain, i, size);
    PlacedHead(chain, i, size);
    ChunkIs(flat', base, chain', i);
    LivePtrsAre(chain, chain', {chain'[i]}, {});
    forall q | q in LivePtrs(chain)
      ensures q != p && Chunk(flat', q) == Chunk(flat, q)
    {
      var k := LiveAt(chain, q);
      Distinct(chain, |flat|, i, k);
      ChunkKept(flat, flat', base, chain, i, i + 1, k);
    }
  }

  lemma PlacedHead(chain: seq<Block>, i: nat, size: nat)
    requires i < |chain| && chain[i].free && chain[i].size >= size
    ensures var chain' := Place(chain, i, size);
      i < |chain'| && chain'[i].addr == chain[i].addr && chain'[i].size >= size && !chain'[i].free
  {
  }

  lemma FreeKeys(h: Heap, i: nat)
    requires HeapOK(h) && i < |h.chain|
    ensures LivePtrs(Free(h, i).chain) == LivePtrs(h.chain) - {h.chain[i].Payload()}
  {
    hide Free, HeapOK, Absorbed;
    var chain, chain' := h.chain, Free(h, i).chain;
    FreeOK(h, i);
    assert forall b :: Live(chain', b) <==> Live(chain, b) && b != chain[i];
    forall p | p in LivePtrs(chain')
      ensures p in LivePtrs(chain) && p != chain[i].Payload()
    {
      var k := LiveAt(chain', p);
      assert Live(chain', chain'[k]) && Live(chain, chain'[k]);
      PayloadUnique(h, chain'[k], chain[i]);
    }
    forall p | p in LivePtrs(chain) && p != chain[i].Payload()
      ensures p in LivePtrs(chain')
    {
      var k := LiveAt(chain, p);
      assert Live(chain, chain[k]) && Live(chain', chain[k]);
    }
  }

  lemma PayloadUnique(h: Heap, b: Block, c: Block)
    requires HeapOK(h) && b in h.chain && c in h.chain && b != c
    ensures b.Payload() != c.Payload()
  {
    var j := PositionOf(h.chain, b);
    var k := PositionOf(h.chain, c);
    Distinct(h.chain, h.words, j, k);
  }

  /** Freeing block i takes its payload off the map and changes no other. */
  lemma FreeContents(flat: seq<Word>, flat': seq<Word>, base: nat, h: Heap, i: nat)
    requires Listed(flat, base, h.chain) && HeapOK(h) && i < |h.chain|
    requires OnlyWithin(flat, flat', h.chain[FreeLo(h.chain, i)].addr, h.chain[FreeHi(h.chain, i) - 1].End(),
               PrevWord(flat, h.chain, FreeHi(h.chain, i)))
    ensures Contents(flat', Free(h, i).chain) == Contents(flat, h.chain) - {h.chain[i].Payload()}
  {
    hide Listed, HeapOK, OnlyWithin, Chunk, Free;
    var chain := h.chain;
    FreeKeys(h, i);
    forall q | q in LivePtrs(chain) && q != chain[i].Payload()
      ensures Chunk(flat', q) == Chunk(flat, q)
    {
      var k := LiveAt(chain, q);
      assert k != i && !chain[k].free;
      ChunkKept(flat, flat', base, chain, FreeLo(chain, i), FreeHi(chain, i), k);
    }
  }

  // ---------------------------------------------------------------------------
  // Growth
  // ---------------------------------------------------------------------------

  /** Memory grew, and the only old word that changed is the next link of the last block. */
  ghost predicate OnlyLinked(flat: seq<Word>, flat': seq<Word>, chain: seq<Block>) {
    && |flat| <= |flat'|
    && forall k :: 0 <= k < |flat| && (chain != [] ==> k != chain[|chain| - 1].addr + NEXT) ==> flat'[k] == flat[k]
  }

  lemma AppendListed(flat: seq<Word>, flat': seq<Word>, base: nat, chain: seq<Block>, b: Block)
    requires Listed(flat, base, chain) && OnlyLinked(flat, flat', chain)
    requires b.addr == |flat| && b.End() == |flat'|
    requires chain != [] ==> chain[|chain| - 1].addr + NEXT < |flat'| && flat'[chain[|chain| - 1].addr + NEXT] == Ptr(base, b.addr)
    requires Header(flat', b, 0, PrevPtr(base, chain, |chain|))
    ensures Listed(flat', base, chain + [b])
  {
    var chain' := chain + [b];
    forall k | 0 <= k < |chain|
      ensures HeaderOK(flat', base, chain', k)
    {
      assert HeaderOK(flat, base, chain, k);
      if k < |chain| - 1 {
        Ordered(chain, |flat|, k, |chain| - 1);
      }
    }
  }

  /** A block handed out at the end adds one payload to the map and changes no other. */
  lemma AppendContents(flat: seq<Word>, flat': seq<Word>, base: nat, chain: seq<Block>, b: Block)
    requires Listed(flat, base, chain) && OnlyLinked(flat, flat', chain)
    requires Listed(flat', base, chain + [b]) && b.addr == |flat|
    ensures b.Payload() !in Contents(flat, chain) && |Chunk(flat', b.Payload())| == b.size
    ensures Contents(flat', chain + [b]) ==
            if b.free then Contents(flat, chain) else Contents(flat, chain)[b.Payload() := Chunk(flat', b.Payload())]
  {
    hide Header, Chunk;
    assert (chain + [b])[|chain|] == b;
    ChunkIs(flat', base, chain + [b], |chain|);
    forall q | q in LivePtrs(chain)
      ensures q != b.Payload() && Chunk(flat', q) == Chunk(flat, q) && q in LivePtrs(chain + [b])
    {
      var k := LiveAt(chain, q);
      assert (chain + [b])[k] == chain[k];
      AppendChunk(flat, flat', base, chain, k);
    }
    forall q | q in LivePtrs(chain + [b])
      ensures q in LivePtrs(chain) || (q == b.Payload() && !b.free)
    {
      var k := LiveAt(chain + [b], q);
    }
    if !b.free {
      assert b in chain + [b];
    }
  }

  lemma AppendChunk(flat: seq<Word>, flat': seq<Word>, base: nat, chain: seq<Block>, k: nat)
    requires Listed(flat, base, chain) && OnlyLinked(flat, flat', chain) && k < |chain|
    ensures chain[k].Payload() < |flat| + HDR && chain[k].addr < |flat|
    ensures Chunk(flat', chain[k].Payload()) == Chunk(flat, chain[k].Payload())
  {
    var b := chain[k];
    ChunkIs(flat, base, chain, k);
    if k < |chain| - 1 {
      Ordered(chain, |flat|, k, |chain| - 1);
    }
    assert HeaderOK(flat, base, chain, k);
    assert flat'[b.Payload() - HDR + SIZE] == flat[b.addr + SIZE] == 4 * b.size;
    assert flat'[b.Payload()..b.Payload() + b.size] == flat[b.Payload()..b.Payload() + b.size];
  }

  // ---------------------------------------------------------------------------
  // Client data
  // ---------------------------------------------------------------------------

  /** Writing inside the payload of block i leaves the list alone, and the other payloads too. */
  lemma PayloadWritten(flat: seq<Word>, flat': seq<Word>, base: nat, chain: seq<Block>, i: nat)
    requires Listed(flat, base, chain) && i < |chain| && !chain[i].free
    requires OnlyWithin(flat, flat', chain[i].Payload(), chain[i].Payload() + chain[i].size, |flat|)
    ensures Listed(flat', base, chain)
    ensures var p := chain[i].Payload();
      && p in Contents(flat, chain) && |Chunk(flat', p)| == |Chunk(flat, p)| == chain[i].size
      && Contents(flat', chain) == Contents(flat, chain)[p := Chunk(flat', p)]
  {
    hide Chunk;
    var b := chain[i];
    forall j | 0 <= j < |chain|
      ensures HeaderOK(flat', base, chain, j)
    {
      assert HeaderOK(flat, base, chain, j);
      if j != i {
        PayloadsApart(flat, base, chain, i, j);
        Ordered(chain, |flat|, if i < j then i else j, if i < j then j else i);
      }
      HeaderKept(flat, flat', b.Payload(), b.Payload() + b.size, |flat|, chain[j], NextPtr(base, chain, j),
          PrevPtr(base, chain, j));
    }
    assert b in chain;
    ChunkIs(flat, base, chain, i);
    ChunkIs(flat', base, chain, i);
    forall q | q in LivePtrs(chain) && q != b.Payload()
      ensures Chunk(flat', q) == Chunk(flat, q)
    {
      var k := LiveAt(chain, q);
      PayloadsApart(flat, base, chain, i, k);
      ChunkIs(flat, base, chain, k);
      ChunkIs(flat', base, chain, k);
      assert flat'[q..q + chain[k].size] == flat[q..q + chain[k].size];
    }
  }
}
