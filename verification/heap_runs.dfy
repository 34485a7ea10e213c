/** Whole runs of kmalloc and kfree over the block list. */
module HeapRuns {
  import opened HeapChain

  datatype HeapOp = Alloc(size: nat) | Release(addr: nat)

  /** The index of the block whose header is at word `addr`. */
  function IndexAt(chain: seq<Block>, addr: nat): (i: nat)
    ensures i <= |chain|
    ensures i < |chain| ==> chain[i].addr == addr
    ensures i == |chain| ==> forall b :: b in chain ==> b.addr != addr
  {
    if chain == [] || chain[0].addr == addr then 0 else 1 + IndexAt(chain[1..], addr)
  }

  ghost predicate Admissible(h: Heap, op: HeapOp) {
    op.Release? ==> exists b :: Live(h.chain, b) && b.addr == op.addr
  }

  ghost function Apply(h: Heap, op: HeapOp): Heap
    requires Admissible(h, op)
  {
    match op
    case Alloc(size) => Malloc(h, size).0
    case Release(addr) => Free(h, IndexAt(h.chain, addr))
  }

  ghost predicate AllAdmissible(h: Heap, ops: seq<HeapOp>)
    decreases |ops|
  {
    ops != [] ==> Admissible(h, ops[0]) && AllAdmissible(Apply(h, ops[0]), ops[1..])
  }

  ghost function Execute(h: Heap, ops: seq<HeapOp>): Heap
    requires AllAdmissible(h, ops)
    decreases |ops|
  {
    if ops == [] then h else Execute(Apply(h, ops[0]), ops[1..])
  }

  lemma {:induction false} RunsOK(h: Heap, ops: seq<HeapOp>)
    requires HeapOK(h) && AllAdmissible(h, ops)
    ensures HeapOK(Execute(h, ops))
    decreases |ops|
  {
    hide HeapOK, Malloc, Free;
    if ops != [] {
      match ops[0] {
        case Alloc(size) => MallocOK(h, size);
        case Release(addr) => FreeOK(h, IndexAt(h.chain, addr));
      }
      RunsOK(Apply(h, ops[0]), ops[1..]);
    }
  }

  /**
   * From the empty heap on, in every reachable state the list tiles the heap, no two neighbours are
   * both free, and the accounting is exact: payloads, headers, and a header for every merge made.
   */
  lemma EveryReachableHeap(min: nat, ops: seq<HeapOp>)
    requires AllAdmissible(Heap([], 0, min, 0), ops)
    ensures var h := Execute(Heap([], 0, min, 0), ops);
      && Tiled(h.chain, h.words) && NoTwins(h.chain)
      && Covered(h.chain) + HDR * h.merges == h.words
      && Sizes(h.chain) + 5 * |h.chain| + 5 * MergesMade(Heap([], 0, min, 0), ops) == h.words
  {
    RunsOK(Heap([], 0, min, 0), ops);
    MergesCounted(Heap([], 0, min, 0), ops);
    Conservation(Execute(Heap([], 0, min, 0), ops));
    CoveredIsSizes(Execute(Heap([], 0, min, 0), ops).chain);
  }

  /** The merges of a run: at each release, the free neighbours of the block released. */
  ghost function MergesMade(h: Heap, ops: seq<HeapOp>): nat
    requires AllAdmissible(h, ops)
    decreases |ops|
  {
    if ops == [] then 0
    else
      (match ops[0]
       case Alloc(_) => 0
       case Release(addr) => FreeNeighbours(h.chain, IndexAt(h.chain, addr)))
      + MergesMade(Apply(h, ops[0]), ops[1..])
  }

  /** The count in the account is that of the merges made, and nothing else. */
  lemma {:induction false} MergesCounted(h: Heap, ops: seq<HeapOp>)
    requires HeapOK(h) && AllAdmissible(h, ops)
    ensures Execute(h, ops).merges == h.merges + MergesMade(h, ops)
    decreases |ops|
  {
    hide HeapOK, Malloc, Free, FreeNeighbours;
    if ops != [] {
      match ops[0] {
        case Alloc(size) => MallocOK(h, size);
        case Release(addr) =>
          FreeAccount(h, IndexAt(h.chain, addr));
          FreeOK(h, IndexAt(h.chain, addr));
      }
      MergesCounted(Apply(h, ops[0]), ops[1..]);
    }
  }

  // ---------------------------------------------------------------------------
  // Freeing everything
  // ---------------------------------------------------------------------------

  ghost function LiveAddrs(chain: seq<Block>): set<nat> {
    set b | b in chain && !b.free :: b.addr
  }

  ghost function FreeAll(h: Heap, order: seq<nat>): Heap
    decreases |order|
  {
    if order == [] then h
    else
      var i := IndexAt(h.chain, order[0]);
      FreeAll(if i < |h.chain| then Free(h, i) else h, order[1..])
  }

  lemma FreeOneLive(h: Heap, addr: nat)
    requires HeapOK(h) && addr in LiveAddrs(h.chain)
    ensures var i := IndexAt(h.chain, addr);
      && i < |h.chain| && !h.chain[i].free
      && HeapOK(Free(h, i)) && Free(h, i).words == h.words && Free(h, i).chain != []
      && LiveAddrs(Free(h, i).chain) == LiveAddrs(h.chain) - {addr}
  {
    hide HeapOK, Free;
    var i := IndexAt(h.chain, addr);
    var b := h.chain[i];
    forall c | c in h.chain && c.addr == addr
      ensures c == b
    {
      var j := PositionOf(h.chain, c);
      UniqueAddr(h, i, j);
    }
    FreeOK(h, i);
    FreeLeavesBlocks(h, i);
    forall a: nat
      ensures a in LiveAddrs(Free(h, i).chain) <==> a in LiveAddrs(h.chain) && a != addr
    {
      if a in LiveAddrs(h.chain) && a != addr {
        var c :| c in h.chain && !c.free && c.addr == a;
        assert Live(h.chain, c) && Live(Free(h, i).chain, c);
      }
      if a in LiveAddrs(Free(h, i).chain) {
        var c :| c in Free(h, i).chain && !c.free && c.addr == a;
        assert Live(Free(h, i).chain, c) && Live(h.chain, c);
      }
    }
  }

  lemma UniqueAddr(h: Heap, i: nat, j: nat)
    requires HeapOK(h) && i < |h.chain| && j < |h.chain| && h.chain[i].addr == h.chain[j].addr
    ensures i == j
  {
    if i != j {
      Distinct(h.chain, h.words, i, j);
    }
  }

  lemma FreeLeavesBlocks(h: Heap, i: nat)
    requires HeapOK(h) && i < |h.chain|
    ensures Free(h, i).chain != []
  {
    FreeNextOK(h, i);
    hide FreeNext;
  }

  /** Freeing everything that is live, in any order, leaves one free block with all but the header space. */
  lemma {:induction false} FreeAllAnyOrder(h: Heap, order: seq<nat>)
    requires HeapOK(h) && h.chain != []
    requires forall i, j :: 0 <= i < j < |order| ==> order[i] != order[j]
    requires forall a: nat :: a in order <==> a in LiveAddrs(h.chain)
    ensures var h' := FreeAll(h, order);
      && |h'.chain| == 1 && h'.chain[0].free && h'.chain[0].addr == 0
      && h'.words == h.words && h'.chain[0].size + HDR + HDR * h'.merges == h.words
    decreases |order|
  {
    hide HeapOK, Free;
    if order == [] {
      assert forall j :: 0 <= j < |h.chain| && !h.chain[j].free ==> h.chain[j].addr in LiveAddrs(h.chain);
      AllFree(h);
    } else {
      assert order[0] in order;
      FreeOneLive(h, order[0]);
      assert forall a :: a in order <==> a == order[0] || a in order[1..];
      FreeAllAnyOrder(Free(h, IndexAt(h.chain, order[0])), order[1..]);
    }
  }
}
