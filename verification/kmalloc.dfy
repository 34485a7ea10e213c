/** kmalloc, kcalloc, krealloc and kfree, on memory that is mapped page by page as the heap grows. */
module Kmalloc {
  import opened Words
  import opened HeapChain
  import opened HeapMemory
  import opened HeapSteps
  import opened HeapSpaces
  import opened Bytes

  /** What krealloc promises when the block is too small: the payload moves, and its old contents are a prefix of the new. */
  ghost predicate Moved(a: map<nat, seq<Word>>, a': map<nat, seq<Word>>, p: nat, p': nat, size: nat) {
    && p in a && p' !in a && p' in a'
    && a' == (a - {p})[p' := a'[p']]
    && a[p] <= a'[p'] && 4 * |a'[p']| >= size
  }

  class KernelHeap {
    const space: HeapSpace
    var firstBlk: Word     // _first_blk
    var heapSize: nat      // _heap_size
    var minHeapSize: nat   // _min_heap_size

    ghost var chain: seq<Block>
    ghost var merges: nat

    ghost function Model(): Heap
      reads this, space
    {
      Heap(chain, |space.flat|, minHeapSize, merges)
    }

    /** The list is in memory; its blocks may still be in transition. */
    ghost predicate Linked()
      reads this, space, space.vm, space.vm.phys, space.vm.frames, space.vm.frames.stack, space.vm.frames.bitmap
    {
      && space.Valid()
      && 0 < space.base && space.base + heapSize < MEMORY_LIMIT
      && heapSize == 4 * |space.flat|
      && Listed(space.flat, space.base, chain)
    }

    ghost predicate Valid()
      reads this, space, space.vm, space.vm.phys, space.vm.frames, space.vm.frames.stack, space.vm.frames.bitmap
    {
      && Linked()
      && HeapOK(Model())
      && firstBlk == if chain == [] then 0 else space.base
    }

    constructor (space: HeapSpace, kheapSize: nat)
      requires space.Valid() && space.flat == [] && 0 < space.base
      ensures Valid() && this.space == space && Model() == Heap([], 0, kheapSize, 0)
    {
      this.space, firstBlk, heapSize, minHeapSize, chain, merges := space, 0, 0, kheapSize, [], 0;
    }

    ghost function Address(i: nat): nat {
      Ptr(space.base, i)
    }

    /** Field `field` of the header at `block`, which is word a of the heap. */
    function GetField(block: Word, ghost a: nat, field: nat): (w: Word)
      reads this, space, space.vm, space.vm.phys, space.vm.frames, space.vm.frames.stack, space.vm.frames.bitmap
      requires space.Valid() && block == Address(a) && a + field < |space.flat| && block + 4 * field < MEMORY_LIMIT
      ensures w == space.flat[a + field]
    {
      hide HeapSpace.Valid;
      space.Get(block + 4 * field, a + field)
    }

    method SetField(block: Word, ghost a: nat, field: nat, w: Word)
      requires space.Valid() && block == Address(a) && a + field < |space.flat| && block + 4 * field < MEMORY_LIMIT
      modifies space, space.vm.phys
      ensures space.Valid() && space.flat == old(space.flat)[a + field := w]
    {
      hide KernelHeap.GetField, HeapSpace.Valid;
      space.Set(block + 4 * field, a + field, w);
    }

    /** The header of block j is in memory. */
    ghost predicate Node(j: nat)
      reads this, space
    {
      && j < |chain|
      && Header(space.flat, chain[j], NextPtr(space.base, chain, j), PrevPtr(space.base, chain, j))
      && chain[j].End() <= |space.flat| && space.base + 4 * |space.flat| < MEMORY_LIMIT
    }

    lemma NodeAt(j: nat)
      requires Linked() && j < |chain|
      ensures Node(j)
    {
      hide KernelHeap.GetField, HeapSpace.Valid, Header;
      Ordered(chain, |space.flat|, j, j);
      assert HeaderOK(space.flat, space.base, chain, j);
    }

    /** __find_free_block, for `size` bytes. */
    method FindFreeBlock(size: nat, ghost words: nat) returns (block: Word, last: Word)
      requires Valid() && chain != [] && size == 4 * words
      ensures var i := FirstFit(chain, words);
        && block == (if i < |chain| then Address(chain[i].addr) else 0)
        && (i == |chain| ==> last == Address(chain[|chain| - 1].addr))
    {
      hide KernelHeap.GetField, HeapSpace.Valid, HeapOK, Listed, FirstFit;
      block := firstBlk;
      last := firstBlk;
      ghost var j := 0;
      assert chain[0].addr == 0 by {
        FirstAtStart();
      }
      forall k | 0 <= k < |chain|
        ensures Node(k)
      {
        NodeAt(k);
      }
      while block != 0 && !(GetField(block, chain[j].addr, FREE) == 1 && GetField(block, chain[j].addr, SIZE) >= size)
        invariant 0 <= j <= |chain|
        invariant j < |chain| ==> block == Address(chain[j].addr) && Node(j)
        invariant j == |chain| ==> block == 0
        invariant last == Address(chain[if j == 0 then 0 else j - 1].addr)
        invariant forall k :: 0 <= k < j ==> !(chain[k].free && chain[k].size >= words)
        decreases |chain| - j
      {
        last := block;
        block := GetField(block, chain[j].addr, NEXT);
        j := j + 1;
      }
    }

    lemma FirstAtStart()
      requires HeapOK(Model()) && chain != []
      ensures chain[0].addr == 0
    {
    }

    method WriteHeader(block: Word, ghost a: nat, free: Word, magic: Word, next: Word, prev: Word, size: Word)
      requires space.Valid() && block == Address(a) && a + HDR <= |space.flat| && block + 4 * HDR < MEMORY_LIMIT
      modifies space, space.vm.phys
      ensures space.Valid() && space.flat == WithHeader(old(space.flat), a, free, magic, next, prev, size)
    {
      hide KernelHeap.GetField, HeapSpace.Valid;
      SetField(block, a, SIZE, size);
      SetField(block, a, FREE, free);
      SetField(block, a, MAGIC, magic);
      SetField(block, a, NEXT, next);
      SetField(block, a, PREV, prev);
    }

    /** __new_blockspace, for `size` bytes: it appends a free block to the list. */
    method NewBlockspace(last: Word, size: nat) returns (block: Word)
      requires Linked() && space.CanExtend(GrowthPages(size))
      requires last == if chain == [] then 0 else Address(chain[|chain| - 1].addr)
      modifies this`heapSize, this`chain, space, space.vm.phys, space.vm.frames, space.vm.frames.bitmap
      ensures Linked() && block == Address(|old(space.flat)|)
      ensures var h := old(Model()); Model() == Append(h, size, true)
      ensures OnlyLinked(old(space.flat), space.flat, old(chain))
    {
      hide KernelHeap.GetField, HeapSpace.Valid, HeapSpace.CanExtend, Listed, OnlyLinked, WithHeader, GrowthPages;
      ghost var flat0 := space.flat;
      assert Listed(flat0, space.base, chain);
      var nbytes := size + 20;
      nbytes := (nbytes + 0x1000) / 0x1000 * 0x1000;
      GrowthExact(size);
      block := space.base + heapSize;
      space.Extend(block, nbytes);
      space.Bounded();
      heapSize := heapSize + nbytes;
      ghost var flat1 := space.flat;
      GrowListed(flat0, flat1, space.base, chain);
      if last != 0 {
        SetField(last, chain[|chain| - 1].addr, NEXT, block);
      }
      WriteHeader(block, |flat0|, 1, DEADBEEF, 0, last, nbytes - 20);
      assert space.flat == GrowFlat(flat1, space.base, chain, |flat0|);
      chain := chain + [Fresh(old(Model()), size, true)];
    }

    /** What the clients see. */
    ghost function Clients(): map<nat, seq<Word>>
      reads this, space
    {
      Contents(space.flat, chain)
    }

    /** `block->free = _MBLKINUSE` */
    method MarkInUse(block: Word, ghost i: nat)
      requires Linked() && i < |chain| && block == Address(chain[i].addr)
      modifies this`chain, space, space.vm.phys
      ensures Linked()
      ensures chain == Spliced(old(chain), i, i + 1, [old(chain)[i].(free := false)])
      ensures old(chain)[i].addr < |old(space.flat)| && space.flat == old(space.flat)[old(chain)[i].addr + FREE := 0]
    {
      hide KernelHeap.GetField, HeapSpace.Valid, Listed, OnlyWithin, Spliced;
      NodeAt(i);
      MarkListed(space.flat, space.base, chain, i);
      SetField(block, chain[i].addr, FREE, 0);
      chain := Spliced(chain, i, i + 1, [chain[i].(free := false)]);
    }

    /** The split of a free block, before the first half is marked. */
    method Split(block: Word, length: nat, ghost i: nat, ghost words: nat)
      requires Linked() && i < |chain| && block == Address(chain[i].addr)
      requires chain[i].free && length == 4 * words && Splits(chain[i], words)
      modifies this`chain, space, space.vm.phys
      ensures Linked()
      ensures chain == Spliced(old(chain), i, i + 1, Halves(old(chain)[i], words))
      ensures OnlyWithin(old(space.flat), space.flat, old(chain)[i].addr, old(chain)[i].End(),
          PrevWord(old(space.flat), old(chain), i + 1))
    {
      hide KernelHeap.GetField, HeapSpace.Valid, Listed, OnlyWithin, Spliced, SplitFlat, Halves, Header;
      NodeAt(i);
      if i + 1 < |chain| {
        NodeAt(i + 1);
      }
      NodeFits(i);
      SplitListed(space.flat, space.base, chain, i, words);
      SplitHeaders(block, length, i, words, space.flat);
      chain := Spliced(chain, i, i + 1, Halves(chain[i], words));
    }

    lemma NodeFits(i: nat)
      requires Node(i) && (i + 1 < |chain| ==> Node(i + 1))
      ensures Header(space.flat, chain[i], NextPtr(space.base, chain, i), PrevPtr(space.base, chain, i))
      ensures chain[i].End() <= |space.flat| && space.base + 4 * |space.flat| < MEMORY_LIMIT
      ensures i + 1 < |chain| ==> chain[i + 1].addr + HDR <= |space.flat|
    {
    }

    /** The stores of the split. */
    method SplitHeaders(block: Word, length: nat, ghost i: nat, ghost words: nat, ghost flat0: seq<Word>)
      requires CanSplit(flat0, space.base, chain, i, words) && length == 4 * words
      requires i + 1 < |chain| ==> chain[i + 1].addr + HDR <= |flat0|
      requires Header(flat0, chain[i], NextPtr(space.base, chain, i), PrevPtr(space.base, chain, i))
      requires 0 < space.base && block == Address(chain[i].addr)
      requires space.Valid() && space.flat == flat0
      modifies space, space.vm.phys
      ensures space.Valid()
      ensures space.flat == SplitFlat(flat0, space.base, chain, i, words)
    {
      hide KernelHeap.GetField, HeapSpace.Valid, WithHeader, Block.End;
      ghost var a, s := chain[i].addr, chain[i].addr + HDR + words;
      assert s + HDR <= |space.flat| by {
        InBlock(chain[i], words, |space.flat|);
      }
      var squeeze := block + 20 + length;
      var next := GetField(block, a, NEXT);
      var size := GetField(block, a, SIZE);
      WriteHeader(squeeze, s, 1, B00BBABE, next, block, size - 20 - length);
      LinkBack(next, i + 1, squeeze);
      SetField(block, a, NEXT, squeeze);
      SetField(block, a, SIZE, length);
    }

    lemma InBlock(b: Block, words: nat, limit: nat)
      requires Splits(b, words) && b.End() <= limit
      ensures b.addr + HDR + words + HDR <= limit
    {
    }

    /** `if (block->next_block) block->next_block->prev_block = prev`, where `next` is the address of block j or NULL. */
    method LinkBack(next: Word, ghost j: nat, prev: Word)
      requires space.Valid() && 0 < space.base && space.base + 4 * |space.flat| < MEMORY_LIMIT
      requires j <= |chain| && next == if j < |chain| then Address(chain[j].addr) else 0
      requires j < |chain| ==> chain[j].addr + HDR <= |space.flat|
      modifies space, space.vm.phys
      ensures space.Valid() && space.flat == WithPrev(old(space.flat), chain, j, prev)
    {
      hide KernelHeap.GetField, HeapSpace.Valid;
      if next != 0 {
        SetField(next, chain[j].addr, PREV, prev);
      }
    }

    // -------------------------------------------------------------------------
    // kmalloc
    // -------------------------------------------------------------------------

    /** The machine has the pages that kmalloc of `words` words would ask it for. */
    ghost predicate CanMalloc(words: nat)
      reads this, space, space.vm, space.vm.phys, space.vm.frames, space.vm.frames.stack, space.vm.frames.bitmap
      requires space.Valid()
    {
      if chain == [] then space.CanExtend(GrowthPages(if 4 * words > minHeapSize then 4 * words else minHeapSize))
      else FirstFit(chain, words) == |chain| ==> space.CanExtend(GrowthPages(4 * words))
    }

    /** The pages by which kmalloc of `words` words would grow the heap; none if a free block fits. */
    ghost function PagesWanted(words: nat): nat
      reads this
    {
      if chain == [] then GrowthPages(if 4 * words > minHeapSize then 4 * words else minHeapSize)
      else if FirstFit(chain, words) == |chain| then GrowthPages(4 * words)
      else 0
    }

    /** So the premise of every allocation is a count of frames, for the heap as it stands. */
    lemma EnoughForMalloc(words: nat)
      requires Valid() && (PagesWanted(words) > 0 ==> space.EnoughFor(PagesWanted(words)))
      ensures CanMalloc(words)
    {
      hide HeapSpace.Valid, HeapSpace.EnoughFor, HeapSpace.CanExtend, HeapOK, Listed;
      if PagesWanted(words) > 0 {
        space.EnoughExtends(PagesWanted(words));
      } else {
        GrowthExact(4 * words);
        GrowthExact(if 4 * words > minHeapSize then 4 * words else minHeapSize);
      }
    }

    /** kmalloc when a free block was found. */
    method PlaceBlock(block: Word, length: nat, ghost i: nat, ghost words: nat)
      requires Valid() && i < |chain| && block == Address(chain[i].addr) && length == 4 * words
      requires chain[i].free && chain[i].size >= words
      modifies this`chain, space, space.vm.phys
      ensures Valid() && |space.flat| == |old(space.flat)|
      ensures chain == Place(old(chain), i, words)
      ensures HandedOut(old(Clients()), Clients(), old(chain)[i].Payload(), words)
    {
      hide KernelHeap.GetField, HeapSpace.Valid, Listed, OnlyWithin, Spliced, HeapOK, Contents, HandedOut;
      ghost var h, flat0 := Model(), space.flat;
      NodeAt(i);
      ghost var b := chain[i];
      if GetField(block, b.addr, SIZE) > 256 + length + 20 {
        SplitThenMark(chain, i, words);
        Split(block, length, i, words);
      }
      ghost var mid := space.flat;
      MarkInUse(block, i);
      assert chain == Place(h.chain, i, words);
      PlaceDone(flat0, mid, space.flat, space.base, h, i, words);
    }

    /** kmalloc when no free block is large enough. */
    method GrowBlock(last: Word, length: nat, ghost words: nat) returns (block: Word)
      requires Valid() && chain != [] && length == 4 * words && space.CanExtend(GrowthPages(length))
      requires last == Address(chain[|chain| - 1].addr)
      modifies this`heapSize, this`chain, space, space.vm.phys, space.vm.frames, space.vm.frames.bitmap
      ensures Valid() && block == Address(|old(space.flat)|)
      ensures var h := old(Model()); Model() == Append(h, length, false)
      ensures HandedOut(old(Clients()), Clients(), |old(space.flat)| + HDR, words)
    {
      hide KernelHeap.GetField, HeapSpace.Valid, HeapSpace.CanExtend, Listed, OnlyLinked, HeapOK, Contents, HandedOut;
      ghost var h, flat0 := Model(), space.flat;
      block := NewBlockspace(last, length);
      ghost var mid := space.flat;
      MarkInUse(block, |h.chain|);
      assert chain == Append(h, length, false).chain;
      GrowDone(flat0, mid, space.flat, space.base, h, words);
    }

    /** What kmalloc promises: the block of the model, and a payload that no client had before. */
    twostate predicate Kmalloced(length: nat, ptr: nat)
      reads this, space
    {
      var (h, i) := Malloc(old(Model()), RoundedWords(length));
      && Model() == h
      && ptr == Address(h.chain[i].Payload())
      && HandedOut(old(Clients()), Clients(), h.chain[i].Payload(), RoundedWords(length))
    }

    method Kmalloc(length: nat) returns (ptr: Word)
      requires Valid() && CanMalloc(RoundedWords(length))
      modifies this, space, space.vm.phys, space.vm.frames, space.vm.frames.bitmap
      ensures Valid() && Kmalloced(length, ptr)
      decreases if firstBlk == 0 then 1 else 0
    {
      hide KernelHeap.GetField, HeapSpace.Valid, HeapSpace.CanExtend, Listed, HeapOK, Contents, HandedOut, FirstFit,
          OnlyLinked, Place;
      ghost var h, flat0, words := Model(), space.flat, RoundedWords(length);
      RoundedTwice(length);
      var rounded := (length + 0xf) / 16 * 16;
      var block: Word, last: Word;
      if firstBlk == 0 {
        FirstCall(h, words);
        if rounded > minHeapSize {
          minHeapSize := rounded;
        }
        block := NewBlockspace(0, minHeapSize);
        firstBlk := block;
        assert Model() == Started(h, words);
        StartedContents(flat0, space.flat, chain);
        ptr := Kmalloc(rounded);
      } else {
        block, last := FindFreeBlock(rounded, words);
        ghost var i := FirstFit(chain, words);
        if block == 0 {
          block := GrowBlock(last, rounded, words);
        } else {
          PlaceBlock(block, rounded, i, words);
          assert i < |Place(h.chain, i, words)| && Place(h.chain, i, words)[i].addr == h.chain[i].addr by {
            PlacedHead(h.chain, i, words);
          }
        }
        NodeAt(i);
        ptr := block + 20;
      }
    }

    // -------------------------------------------------------------------------
    // kfree
    // -------------------------------------------------------------------------

    /** What the three steps of kfree know: the memory they started from. */
    ghost predicate Freeing(flat0: seq<Word>, i: nat)
      reads this, space
    {
      && 0 < space.base && |space.flat| == |flat0|
      && Listed(flat0, space.base, chain) && CanFree(flat0, space.base, chain, i)
    }

    method SetLink(block: Word, ghost a: nat, next: Word, size: Word)
      requires space.Valid() && block == Address(a) && a + HDR <= |space.flat| && block + 4 * HDR < MEMORY_LIMIT
      modifies space, space.vm.phys
      ensures space.Valid() && space.flat == WithLink(old(space.flat), a, next, size)
    {
      hide KernelHeap.GetField, HeapSpace.Valid;
      SetField(block, a, NEXT, next);
      SetField(block, a, SIZE, size);
    }

    /** The forward merge. */
    method MergeNext(block: Word, next: Word, ghost i: nat, ghost flat0: seq<Word>)
      requires space.Valid() && space.flat == flat0 && Freeing(flat0, i)
      requires block == Address(chain[i].addr) && next == NextPtr(space.base, chain, i)
      modifies space, space.vm.phys
      ensures space.Valid() && space.flat == FreeFlatNext(flat0, space.base, chain, i)
    {
      hide KernelHeap.GetField, HeapSpace.Valid, Listed, CanFree, WithLink;
      Around(flat0, space.base, chain, i);
      ghost var a := chain[i].addr;
      Neighbours(flat0, space.base, chain, i);
      if next != 0 {
        ghost var n := chain[i + 1].addr;
        if GetField(next, n, FREE) == 1 {
          var totalSize := GetField(block, a, SIZE) + GetField(next, n, SIZE);
          assert totalSize == 4 * (chain[i].size + chain[i + 1].size);
          SetLink(block, a, GetField(next, n, NEXT), totalSize);
        }
      }
    }

    /** The backward merge; it answers the block that is left. */
    method MergePrev(block: Word, prev: Word, ghost i: nat, ghost flat0: seq<Word>) returns (merged: Word)
      requires space.Valid() && Freeing(flat0, i) && space.flat == FreeFlatNext(flat0, space.base, chain, i)
      requires block == Address(chain[i].addr) && prev == PrevPtr(space.base, chain, i)
      modifies space, space.vm.phys
      ensures space.Valid() && space.flat == FreeFlatPrev(flat0, space.base, chain, i)
      ensures merged == Address(chain[FreeLo(chain, i)].addr)
    {
      hide KernelHeap.GetField, HeapSpace.Valid, Listed, CanFree, FreeFlatNext, WithLink;
      Around(flat0, space.base, chain, i);
      ghost var a := chain[i].addr;
      Neighbours(flat0, space.base, chain, i);
      FreeWordsNext(flat0, space.base, chain, i);
      merged := block;
      if prev != 0 {
        ghost var p := chain[i - 1].addr;
        if GetField(prev, p, FREE) == 1 {
          var totalSize := GetField(block, a, SIZE) + GetField(prev, p, SIZE);
          assert totalSize == 4 * FreedBlock(chain, i).size;
          SetLink(prev, p, GetField(block, a, NEXT), totalSize);
          merged := prev;
        }
      }
    }

    /** The links from both neighbours, and the flag. */
    method Relink(block: Word, ghost i: nat, ghost flat0: seq<Word>)
      requires space.Valid() && Freeing(flat0, i) && space.flat == FreeFlatPrev(flat0, space.base, chain, i)
      requires block == Address(chain[FreeLo(chain, i)].addr)
      modifies space, space.vm.phys
      ensures space.Valid() && space.flat == FreeFlat(flat0, space.base, chain, i)
    {
      hide KernelHeap.GetField, HeapSpace.Valid, Listed, CanFree, FreeFlatPrev, FreeLo, FreeHi, FreedBlock;
      Around(flat0, space.base, chain, i);
      ghost var lo, hi := FreeLo(chain, i), FreeHi(chain, i);
      ghost var a := chain[lo].addr;
      FreeWordsPrev(flat0, space.base, chain, i);
      LinkBack(GetField(block, a, NEXT), hi, block);
      var prev := GetField(block, a, PREV);
      if prev != 0 {
        SetField(prev, chain[lo - 1].addr, NEXT, block);
      }
      SetField(block, a, FREE, 1);
    }

    /** _mblk_valid, for the header at word a */
    ghost predicate Stamped(a: nat)
      reads this, space
    {
      a + MAGIC < |space.flat| && (space.flat[a + MAGIC] == DEADBEEF || space.flat[a + MAGIC] == B00BBABE)
    }

    /** `addr` is the address of heap word p, with a header in front of it that is block i's if it is stamped. */
    ghost predicate Freeable(addr: Word, p: nat, i: nat)
      reads this, space
    {
      && addr == Address(p) && HDR <= p <= |space.flat|
      && (Stamped(p - HDR) ==> i < |chain| && chain[i].Payload() == p)
    }

    method Kfree(addr: Word, ghost p: nat, ghost i: nat) returns (status: Status)
      requires Valid() && (addr == 0 || Freeable(addr, p, i))
      modifies this`chain, this`merges, space, space.vm.phys
      ensures Valid()
      ensures addr == 0 ==> status == Ok && space.flat == old(space.flat) && Model() == old(Model())
      ensures addr != 0 && !old(Stamped(p - HDR)) ==> status == InvalidFree && space.flat == old(space.flat) && Model() == old(Model())
      ensures addr != 0 && old(Stamped(p - HDR)) ==>
                && status == Ok && Model() == Free(old(Model()), i)
                && Clients() == old(Clients()) - {p}
    {
      hide KernelHeap.GetField, HeapSpace.Valid, HeapOK, Listed, CanFree, Contents, FreeFlat, FreeFlatNext,
          FreeFlatPrev, OnlyWithin, Free;
      if addr == 0 {
        return Ok;
      }
      var block := addr - 20;
      var magic := GetField(block, p - HDR, MAGIC);
      if !(magic == 0xdeadbeef || magic == 0xb00bbabe) {
        return InvalidFree;
      }
      ghost var h, flat0 := Model(), space.flat;
      NodeAt(i);
      ListedCanFree(flat0, space.base, chain, i);
      FreeListed(flat0, space.base, h, i);
      FreeContents(flat0, FreeFlat(flat0, space.base, chain, i), space.base, h, i);
      FreeOK(h, i);
      FreeLeaves(h, i);
      var next := GetField(block, p - HDR, NEXT);
      var prev := GetField(block, p - HDR, PREV);
      MergeNext(block, next, i, flat0);
      block := MergePrev(block, prev, i, flat0);
      Relink(block, i, flat0);
      chain, merges := Free(h, i).chain, Free(h, i).merges;
      return Ok;
    }

    // -------------------------------------------------------------------------
    // Client data
    // -------------------------------------------------------------------------

    function LoadByte(ptr: Word, ghost p: nat, q: nat): (b: Byte)
      reads this, space, space.vm, space.vm.phys, space.vm.frames, space.vm.frames.stack, space.vm.frames.bitmap
      requires space.Valid() && ptr == Address(p) && p + q / 4 < |space.flat| && space.base + 4 * |space.flat| < MEMORY_LIMIT
      ensures b == ByteAt(space.flat, p, q)
    {
      hide HeapSpace.Valid, KernelHeap.GetField, ByteOf;
      ByteOf(GetField(ptr, p, q / 4), q % 4)
    }

    method StoreByte(ptr: Word, ghost p: nat, q: nat, b: Byte)
      requires space.Valid() && ptr == Address(p) && p + q / 4 < |space.flat| && space.base + 4 * |space.flat| < MEMORY_LIMIT
      modifies space, space.vm.phys
      ensures space.Valid() && space.flat == WithByteAt(old(space.flat), p, q, b)
    {
      hide HeapSpace.Valid, KernelHeap.GetField, WithByte;
      SetField(ptr, p, q / 4, WithByte(GetField(ptr, p, q / 4), q % 4, b));
    }

    /** A client stores byte q of its payload. */
    method ClientStore(ptr: Word, q: nat, b: Byte, ghost i: nat)
      requires Valid() && i < |chain| && !chain[i].free && ptr == Address(chain[i].Payload()) && q < 4 * chain[i].size
      modifies space, space.vm.phys
      ensures Valid() && Model() == old(Model())
      ensures var p := chain[i].Payload();
        && p in old(Clients()) && q / 4 < |old(Clients())[p]|
        && Clients() == old(Clients())[p := WithByteAt(old(Clients())[p], 0, q, b)]
    {
      hide HeapSpace.Valid, HeapOK, Listed, Contents, Chunk, WithByte;
      ghost var flat0, c := space.flat, chain[i];
      NodeAt(i);
      StoreByte(ptr, c.Payload(), q, b);
      assert OnlyWithin(flat0, space.flat, c.Payload(), c.Payload() + c.size, |flat0|);
      PayloadWritten(flat0, space.flat, space.base, chain, i);
      ChunkIs(flat0, space.base, chain, i);
      ChunkIs(space.flat, space.base, chain, i);
      ContentsAt(flat0, chain, c.Payload());
    }

    lemma ContentsAt(flat: seq<Word>, chain: seq<Block>, p: nat)
      requires p in Contents(flat, chain)
      ensures Contents(flat, chain)[p] == Chunk(flat, p)
    {
    }

    /** The zeroing loop of kcalloc. */
    method ZeroBytes(ptr: Word, ghost p: nat, length: nat)
      requires space.Valid() && ptr == Address(p) && p + (length + 3) / 4 <= |space.flat|
          && space.base + 4 * |space.flat| < MEMORY_LIMIT
      modifies space, space.vm.phys
      ensures space.Valid() && |space.flat| == |old(space.flat)|
      ensures OnlyWithin(old(space.flat), space.flat, p, p + (length + 3) / 4, |old(space.flat)|)
      ensures forall q: nat :: q < length ==> p + q / 4 < |space.flat| && ByteAt(space.flat, p, q) == 0
    {
      hide HeapSpace.Valid, WithByteAt, ByteAt;
      for i := 0 to length
        invariant space.Valid() && OnlyWithin(old(space.flat), space.flat, p, p + (length + 3) / 4, |old(space.flat)|)
        invariant forall q: nat :: q < i ==> p + q / 4 < |space.flat| && ByteAt(space.flat, p, q) == 0
      {
        ghost var flat := space.flat;
        StoreByte(ptr, p, i, 0);
        StoredByte(flat, p, i, 0);
      }
    }

    /** What kcalloc promises besides: every byte asked for is zero. */
    ghost predicate Zeroed(p: nat, length: nat)
      reads this, space
    {
      p in Clients() && forall q: nat :: q < length ==> q / 4 < |Clients()[p]| && ByteAt(Clients()[p], 0, q) == 0
    }

    method Kcalloc(nmemb: nat, size: nat) returns (ptr: Word)
      requires Valid() && CanMalloc(RoundedWords(nmemb * size))
      modifies this, space, space.vm.phys, space.vm.frames, space.vm.frames.bitmap
      ensures Valid() && Kmalloced(nmemb * size, ptr)
      ensures exists p: nat :: ptr == Address(p) && Zeroed(p, nmemb * size)
    {
      ptr := CallocBytes(nmemb * size);
    }

    method CallocBytes(length: nat) returns (ptr: Word)
      requires Valid() && CanMalloc(RoundedWords(length))
      modifies this, space, space.vm.phys, space.vm.frames, space.vm.frames.bitmap
      ensures Valid() && Kmalloced(length, ptr)
      ensures exists p: nat :: ptr == Address(p) && Zeroed(p, length)
    {
      hide KernelHeap.GetField, HeapSpace.Valid, HeapSpace.CanExtend, HeapOK, Listed, Contents, ByteAt, OnlyWithin,
          Malloc, HandedOut, RoundedWords;
      ghost var words := RoundedWords(length);
      ghost var i, a0 := Malloc(Model(), words).1, Clients();
      MallocOK(Model(), words);
      ptr := Kmalloc(length);
      ghost var flat1, p := space.flat, chain[i].Payload();
      NodeAt(i);
      RoundedTwice(length);
      ZeroBytes(ptr, p, length);
      CallocDone(flat1, space.flat, space.base, chain, i, a0, length);
      InHand(a0, Clients(), p, words);
      assert Zeroed(p, length);
    }

    lemma InHand(a: map<nat, seq<Word>>, a': map<nat, seq<Word>>, p: nat, words: nat)
      requires HandedOut(a, a', p, words)
      ensures p in a'
    {
    }

    /** The copying loop of krealloc. */
    method CopyBytes(dst: Word, src: Word, ghost d: nat, ghost s: nat, length: nat, ghost words: nat)
      requires space.Valid() && dst == Address(d) && src == Address(s) && length == 4 * words
      requires d + words <= |space.flat| && s + words <= |space.flat| && (d + words <= s || s + words <= d)
      requires space.base + 4 * |space.flat| < MEMORY_LIMIT
      modifies space, space.vm.phys
      ensures space.Valid() && |space.flat| == |old(space.flat)|
      ensures OnlyWithin(old(space.flat), space.flat, d, d + words, |old(space.flat)|)
      ensures space.flat[d..d + words] == old(space.flat)[s..s + words]
    {
      hide HeapSpace.Valid, WithByteAt, ByteAt;
      ghost var flat0 := space.flat;
      for i := 0 to length
        invariant space.Valid() && OnlyWithin(flat0, space.flat, d, d + words, |flat0|)
        invariant forall q: nat :: q < i ==> d + q / 4 < |flat0| && s + q / 4 < |flat0| && ByteAt(space.flat, d, q) == ByteAt(flat0, s, q)
      {
        ghost var flat := space.flat;
        var b := LoadByte(src, s, i);
        SameByte(flat0, flat, d, words, s, i);
        StoreByte(dst, d, i, b);
        StoredByte(flat, d, i, b);
      }
      CopiedWords(flat0, space.flat, d, s, words);
    }

    method Krealloc(ptr: Word, size: nat, ghost p: nat, ghost i: nat) returns (r: Word)
      requires Valid() && (ptr == 0 || Freeable(ptr, p, i))
      requires ptr != 0 && Stamped(p - HDR) ==> !chain[i].free
      requires ptr == 0 || (Stamped(p - HDR) && 4 * chain[i].size < size) ==> CanMalloc(RoundedWords(size))
      modifies this, space, space.vm.phys, space.vm.frames, space.vm.frames.bitmap
      ensures Valid()
      ensures ptr == 0 ==> Kmalloced(size, r)
      ensures ptr != 0 && !old(Stamped(p - HDR)) ==> r == 0 && Model() == old(Model()) && space.flat == old(space.flat)
      ensures ptr != 0 && old(Stamped(p - HDR)) && 4 * old(chain)[i].size >= size ==>
                r == ptr && Model() == old(Model()) && space.flat == old(space.flat)
      ensures ptr != 0 && old(Stamped(p - HDR)) && 4 * old(chain)[i].size < size ==>
                var (h, k) := Malloc(old(Model()), RoundedWords(size));
                && r == Address(h.chain[k].Payload())
                && (exists j :: 0 <= j < |h.chain| && h.chain[j] == old(chain)[i] && Model() == Free(h, j))
                && Moved(old(Clients()), Clients(), p, h.chain[k].Payload(), size)
    {
      hide KernelHeap.GetField, HeapSpace.Valid, HeapSpace.CanExtend, HeapOK, Listed, Contents, OnlyWithin, Malloc,
          Free, HandedOut, Moved, FirstFit, RoundedWords, Chunk;
      if ptr == 0 {
        r := Kmalloc(size);
        return;
      }
      var block := ptr - 20;
      var magic := GetField(block, p - HDR, MAGIC);
      if !(magic == 0xdeadbeef || magic == 0xb00bbabe) {
        return 0;
      }
      NodeAt(i);
      if GetField(block, p - HDR, SIZE) >= size {
        return ptr;
      }
      r := MoveBlock(ptr, size, p, i);
    }

    /** krealloc when the block is too small: kmalloc and copy. */
    method CopyBlock(ptr: Word, size: nat, ghost p: nat, ghost i: nat) returns (r: Word, ghost j: nat)
      requires Valid() && Node(i) && !chain[i].free && ptr == Address(p) && chain[i].Payload() == p
      requires 4 * chain[i].size < size && CanMalloc(RoundedWords(size))
      modifies this, space, space.vm.phys, space.vm.frames, space.vm.frames.bitmap
      ensures Valid()
      ensures var (h, k) := Malloc(old(Model()), RoundedWords(size));
        && Model() == h && r == Address(h.chain[k].Payload())
        && j < |h.chain| && h.chain[j] == old(chain)[i]
        && HandedOut(old(Clients()), Clients(), h.chain[k].Payload(), RoundedWords(size))
        && p in old(Clients()) && old(Clients())[p] <= Clients()[h.chain[k].Payload()]
    {
      hide KernelHeap.GetField, HeapSpace.Valid, HeapSpace.CanExtend, HeapOK, Listed, Contents, OnlyWithin, Malloc,
          HandedOut, FirstFit, RoundedWords, Chunk;
      ghost var h0, words, b := Model(), RoundedWords(size), chain[i];
      ghost var flat0 := space.flat;
      RoundedTwice(size);
      r := Kmalloc(size);
      ghost var k, flat1 := Malloc(h0, words).1, space.flat;
      j := StillListed(h0, i, words);
      NodeAt(k);
      NodeAt(j);
      ghost var d := chain[k].Payload();
      ReallocApart(flat0, flat1, space.base, h0.chain, chain, i, j, k, words);
      CopyBytes(r, ptr, d, p, GetField(ptr - 20, b.addr, SIZE), b.size);
      ReallocCopied(flat0, flat1, space.flat, space.base, h0.chain, chain, i, j, k, words);
      InHand(Contents(flat0, h0.chain), Clients(), d, words);
    }

    /** krealloc when the block is too small: kmalloc, copy, kfree. */
    method MoveBlock(ptr: Word, size: nat, ghost p: nat, ghost i: nat) returns (r: Word)
      requires Valid() && Node(i) && !chain[i].free && ptr == Address(p) && chain[i].Payload() == p
      requires 4 * chain[i].size < size && CanMalloc(RoundedWords(size))
      modifies this, space, space.vm.phys, space.vm.frames, space.vm.frames.bitmap
      ensures Valid()
      ensures var (h, k) := Malloc(old(Model()), RoundedWords(size));
        && r == Address(h.chain[k].Payload())
        && (exists j :: 0 <= j < |h.chain| && h.chain[j] == old(chain)[i] && Model() == Free(h, j))
        && Moved(old(Clients()), Clients(), p, h.chain[k].Payload(), size)
    {
      hide KernelHeap.GetField, HeapSpace.Valid, HeapSpace.CanExtend, HeapOK, Listed, Contents, Malloc, Free,
          HandedOut, Moved, FirstFit, RoundedWords;
      ghost var a0, words := Clients(), RoundedWords(size);
      ghost var d := Malloc(Model(), words).0.chain[Malloc(Model(), words).1].Payload();
      RoundedTwice(size);
      ghost var j;
      r, j := CopyBlock(ptr, size, p, i);
      ghost var a2 := Clients();
      NodeAt(j);
      var status := Kfree(ptr, p, j);
      ReallocDone(a0, a2, Clients(), p, d, words, size);
    }

    /** init_kmalloc, after the constructor: the first allocation, and its release. */
    method InitKmalloc()
      requires Valid() && chain == [] && merges == 0 && CanMalloc(RoundedWords(11000))
      modifies this, space, space.vm.phys, space.vm.frames, space.vm.frames.bitmap
      ensures Valid() && Clients() == map[]
      ensures var (h, i) := Malloc(Heap([], 0, old(minHeapSize), 0), RoundedWords(11000)); Model() == Free(h, i)
    {
      hide KernelHeap.GetField, HeapSpace.Valid, HeapSpace.CanExtend, HeapOK, Listed, Contents, Malloc, Free,
          HandedOut, RoundedWords;
      ghost var words := RoundedWords(11000);
      ghost var i, a0 := Malloc(Model(), words).1, Clients();
      InitStart();
      MallocOK(Model(), words);
      var a := Kmalloc(11000);
      ghost var a1 := Clients();
      NodeAt(i);
      ghost var p := chain[i].Payload();
      var status := Kfree(a, p, i);
      Undone(a0, a1, p, words);
    }

    lemma InitStart()
      requires Valid() && chain == [] && merges == 0
      ensures Model() == Heap([], 0, minHeapSize, 0) && Clients() == map[]
    {
    }

    /** Handing a payload out and taking it back is no change. */
    lemma Undone(a: map<nat, seq<Word>>, a': map<nat, seq<Word>>, p: nat, words: nat)
      requires HandedOut(a, a', p, words)
      ensures a' - {p} == a
    {
    }
  }

  /** kmalloc leaves every live block on the list. */
  lemma StillListed(h: Heap, i: nat, words: nat) returns (j: nat)
    requires HeapOK(h) && i < |h.chain| && !h.chain[i].free
    ensures var (h', k) := Malloc(h, words);
      j < |h'.chain| && h'.chain[j] == h.chain[i] && !h'.chain[k].free && h'.chain[k].size >= words
  {
    MallocOK(h, words);
    assert Live(h.chain, h.chain[i]);
    j := PositionOf(Malloc(h, words).0.chain, h.chain[i]);
  }

  /** The byte about to be copied is still what it was. */
  lemma SameByte(flat0: seq<Word>, flat: seq<Word>, d: nat, words: nat, s: nat, q: nat)
    requires OnlyWithin(flat0, flat, d, d + words, |flat0|) && q < 4 * words
    requires s + words <= |flat0| && (d + words <= s || s + words <= d)
    ensures s + q / 4 < |flat0| && ByteAt(flat, s, q) == ByteAt(flat0, s, q)
  {
  }

  lemma CopiedWords(flat0: seq<Word>, flat: seq<Word>, d: nat, s: nat, words: nat)
    requires d + words <= |flat0| == |flat| && s + words <= |flat0|
    requires forall q: nat :: q < 4 * words ==> ByteAt(flat, d, q) == ByteAt(flat0, s, q)
    ensures flat[d..d + words] == flat0[s..s + words]
  {
    var copy, original := flat[d..d + words], flat0[s..s + words];
    forall k | 0 <= k < words
      ensures copy[k] == original[k]
    {
      CopiedByte(flat0, flat, d, s, words, k, 0);
      CopiedByte(flat0, flat, d, s, words, k, 1);
      CopiedByte(flat0, flat, d, s, words, k, 2);
      CopiedByte(flat0, flat, d, s, words, k, 3);
      SameBytes(flat[d + k], flat0[s + k]);
    }
  }

  lemma CopiedByte(flat0: seq<Word>, flat: seq<Word>, d: nat, s: nat, words: nat, k: nat, t: nat)
    requires d + words <= |flat0| == |flat| && s + words <= |flat0| && k < words && t < 4
    requires forall q: nat :: q < 4 * words ==> ByteAt(flat, d, q) == ByteAt(flat0, s, q)
    ensures ByteOf(flat[d + k], t) == ByteOf(flat0[s + k], t)
  {
    assert ByteAt(flat, d, 4 * k + t) == ByteAt(flat0, s, 4 * k + t);
    assert (4 * k + t) / 4 == k && (4 * k + t) % 4 == t;
  }

  /** krealloc's new block is not its old one, and has room for the old contents. */
  lemma ReallocApart(flat0: seq<Word>, flat1: seq<Word>, base: nat, chain0: seq<Block>, chain1: seq<Block>, i: nat,
      j: nat, k: nat, words: nat)
    requires i < |chain0| && j < |chain1| && k < |chain1| && !chain0[i].free && chain1[j] == chain0[i]
    requires Listed(flat1, base, chain1)
    requires HandedOut(Contents(flat0, chain0), Contents(flat1, chain1), chain1[k].Payload(), words)
    ensures j != k
    ensures chain1[j].Payload() + chain1[j].size <= chain1[k].Payload() || chain1[k].Payload() + chain1[k].size <= chain1[j].Payload()
  {
    assert chain0[i] in chain0;
    assert chain0[i].Payload() in LivePtrs(chain0);
    PayloadsApart(flat1, base, chain1, j, k);
  }

  /** After the copy the new payload starts with the old contents. */
  lemma ReallocCopied(flat0: seq<Word>, flat1: seq<Word>, flat2: seq<Word>, base: nat, chain0: seq<Block>,
      chain1: seq<Block>, i: nat, j: nat, k: nat, words: nat)
    requires i < |chain0| && j < |chain1| && k < |chain1| && j != k
    requires !chain0[i].free && chain1[j] == chain0[i] && !chain1[k].free && chain1[k].size >= words > chain1[j].size
    requires Listed(flat0, base, chain0) && Listed(flat1, base, chain1)
    requires HandedOut(Contents(flat0, chain0), Contents(flat1, chain1), chain1[k].Payload(), words)
    requires chain1[k].End() <= |flat1| && chain1[j].End() <= |flat1| && |flat2| == |flat1|
    requires OnlyWithin(flat1, flat2, chain1[k].Payload(), chain1[k].Payload() + chain1[j].size, |flat1|)
    requires flat2[chain1[k].Payload()..chain1[k].Payload() + chain1[j].size] == flat1[chain1[j].Payload()..chain1[j].Payload() + chain1[j].size]
    ensures Listed(flat2, base, chain1)
    ensures var a0, a2, p := Contents(flat0, chain0), Contents(flat2, chain1), chain0[i].Payload();
      && HandedOut(a0, a2, chain1[k].Payload(), words)
      && p in a0 && a0[p] <= a2[chain1[k].Payload()]
  {
    hide Listed, Chunk;
    assert OnlyWithin(flat1, flat2, chain1[k].Payload(), chain1[k].Payload() + chain1[k].size, |flat1|);
    PayloadWritten(flat1, flat2, base, chain1, k);
    assert chain0[i] in chain0 && chain1[j] in chain1;
    ChunkIs(flat1, base, chain1, j);
    ChunkIs(flat2, base, chain1, k);
    var a0, a1, a2, p, d := Contents(flat0, chain0), Contents(flat1, chain1), Contents(flat2, chain1),
        chain0[i].Payload(), chain1[k].Payload();
    assert p in a0 && a0[p] == a1[p] == flat1[p..p + chain1[j].size];
    assert a2[d] == flat2[d..d + chain1[k].size];
    assert a2[d][..chain1[j].size] == flat2[d..d + chain1[j].size];
  }

  lemma ReallocDone(a0: map<nat, seq<Word>>, a2: map<nat, seq<Word>>, a3: map<nat, seq<Word>>, p: nat, d: nat,
      words: nat, size: nat)
    requires HandedOut(a0, a2, d, words) && p in a0 && a0[p] <= a2[d] && a3 == a2 - {p} && 4 * words >= size
    ensures Moved(a0, a3, p, d, size)
  {
  }

  lemma InsidePayload(flat: seq<Word>, flat': seq<Word>, b: Block, length: nat)
    requires OnlyWithin(flat, flat', b.Payload(), b.Payload() + (length + 3) / 4, |flat|) && (length + 3) / 4 <= b.size
    ensures OnlyWithin(flat, flat', b.Payload(), b.Payload() + b.size, |flat|)
  {
  }

  /** Zeroing the bytes asked for changes no other payload. */
  lemma CallocDone(flat: seq<Word>, flat': seq<Word>, base: nat, chain: seq<Block>, i: nat, a0: map<nat, seq<Word>>,
      length: nat)
    requires Listed(flat, base, chain) && i < |chain| && !chain[i].free && chain[i].size >= RoundedWords(length)
    requires HandedOut(a0, Contents(flat, chain), chain[i].Payload(), RoundedWords(length))
    requires OnlyWithin(flat, flat', chain[i].Payload(), chain[i].Payload() + (length + 3) / 4, |flat|)
    requires forall q: nat :: q < length ==> chain[i].Payload() + q / 4 < |flat'| && ByteAt(flat', chain[i].Payload(), q) == 0
    ensures Listed(flat', base, chain)
    ensures var c, p := Contents(flat', chain), chain[i].Payload();
      && HandedOut(a0, c, p, RoundedWords(length))
      && forall q: nat :: q < length ==> q / 4 < |c[p]| && ByteAt(c[p], 0, q) == 0
  {
    hide Listed, Contents, Chunk, ByteAt, OnlyWithin;
    var b := chain[i];
    RoundedTwice(length);
    InsidePayload(flat, flat', b, length);
    PayloadWritten(flat, flat', base, chain, i);
    ChunkIs(flat', base, chain, i);
    ChunkBytes(flat', b.Payload(), b.size, length);
    var c := Contents(flat', chain)[b.Payload()];
    assert c == flat'[b.Payload()..b.Payload() + b.size];
    forall q: nat | q < length
      ensures q / 4 < |c| && ByteAt(c, 0, q) == 0
    {
      assert ByteAt(flat', b.Payload(), q) == 0;
    }
  }

  lemma ChunkBytes(flat: seq<Word>, p: nat, size: nat, length: nat)
    requires p + size <= |flat| && (length + 3) / 4 <= size
    ensures forall q: nat :: q < length ==>
      q / 4 < size && p + q / 4 < |flat| && ByteAt(flat[p..p + size], 0, q) == ByteAt(flat, p, q)
  {
  }

  /** A byte store, seen from every byte of the same payload and from every word. */
  lemma StoredByte(flat: seq<Word>, p: nat, q: nat, b: Byte)
    requires p + q / 4 < |flat|
    ensures forall k: nat :: k < |flat| && k != p + q / 4 ==> WithByteAt(flat, p, q, b)[k] == flat[k]
    ensures forall t: nat :: p + t / 4 < |flat| ==> ByteAt(WithByteAt(flat, p, q, b), p, t) == if t == q then b else ByteAt(flat, p, t)
  {
    forall t: nat | p + t / 4 < |flat|
      ensures ByteAt(WithByteAt(flat, p, q, b), p, t) == if t == q then b else ByteAt(flat, p, t)
    {
      WithByteAtKeeps(flat, p, q, b, t);
    }
  }

  lemma FreeLeaves(h: Heap, i: nat)
    requires HeapOK(h) && i < |h.chain|
    ensures Free(h, i).chain != [] && Free(h, i).words == h.words && Free(h, i).min == h.min
  {
    FreeNextOK(h, i);
  }

  lemma StartedContents(flat: seq<Word>, flat': seq<Word>, chain: seq<Block>)
    requires |chain| == 1 && chain[0].free
    ensures Contents(flat', chain) == Contents(flat, [])
  {
    forall p | p in LivePtrs(chain)
      ensures false
    {
      var k := LiveAt(chain, p);
    }
  }
}
