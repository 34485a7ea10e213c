/** Whole runs of the heap as its clients see them. */
module HeapClients {
  import opened Words
  import opened Bytes
  import opened HeapChain
  import opened HeapMemory
  import opened HeapSpaces
  import opened Kmalloc
  import Paging
  import FlatMemory

  /** What clients do; p is a payload, q one of its bytes. */
  datatype ClientOp =
    | Alloc(length: nat)
    | Calloc(nmemb: nat, size: nat)
    | Release(p: nat)
    | Resize(p: nat, size: nat)
    | Store(p: nat, q: nat, b: Byte)

  type Clients = map<nat, seq<Word>>

  /** The first `length` bytes of a payload are zero. */
  predicate ZeroBytes(payload: seq<Word>, length: nat) {
    forall q: nat :: q < length ==> q / 4 < |payload| && ByteAt(payload, 0, q) == 0
  }

  /** One call: it takes the clients from map a to map a', and answers the payload `out`, if any. */
  ghost predicate Step(a: Clients, op: ClientOp, out: nat, a': Clients) {
    match op
    case Alloc(length) => HandedOut(a, a', out, RoundedWords(length))
    case Calloc(nmemb, size) =>
      HandedOut(a, a', out, RoundedWords(nmemb * size)) && ZeroBytes(a'[out], nmemb * size)
    case Release(p) => p in a && a' == a - {p}
    case Resize(p, size) =>
      && p in a
      && if 4 * |a[p]| >= size then a' == a && out == p else Moved(a, a', p, out, size)
    case Store(p, q, b) => p in a && q / 4 < |a[p]| && a' == a[p := WithByteAt(a[p], 0, q, b)]
  }

  predicate Answers(op: ClientOp) {
    op.Alloc? || op.Calloc? || op.Resize?
  }

  // ---------------------------------------------------------------------------
  // The calls
  // ---------------------------------------------------------------------------

  /** The client owns the payload that it names, and there are frames for a growth. */
  ghost predicate CanPerform(heap: KernelHeap, op: ClientOp)
    reads heap, heap.space, heap.space.vm, heap.space.vm.phys, heap.space.vm.frames, heap.space.vm.frames.stack,
          heap.space.vm.frames.bitmap
    requires heap.Valid()
  {
    match op
    case Alloc(length) => heap.CanMalloc(RoundedWords(length))
    case Calloc(nmemb, size) => heap.CanMalloc(RoundedWords(nmemb * size))
    case Release(p) => p in heap.Clients()
    case Resize(p, size) =>
      p in heap.Clients() && (4 * |heap.Clients()[p]| < size ==> heap.CanMalloc(RoundedWords(size)))
    case Store(p, q, _) => p in heap.Clients() && q / 4 < |heap.Clients()[p]|
  }

  /** Behind every live payload there is a block of the list, in memory. */
  lemma OwnedBlock(heap: KernelHeap, p: nat) returns (i: nat)
    requires heap.Valid() && p in heap.Clients()
    ensures i < |heap.chain| && !heap.chain[i].free && heap.chain[i].Payload() == p
    ensures heap.Stamped(p - HDR) && HDR <= p <= |heap.space.flat| && heap.Address(p) < MEMORY_LIMIT && heap.Address(p) != 0
    ensures |heap.Clients()[p]| == heap.chain[i].size
  {
    hide HeapOK, Tiled, Chunk, HeapSpace.Valid;
    i := LiveAt(heap.chain, p);
    heap.NodeAt(i);
    ChunkIs(heap.space.flat, heap.space.base, heap.chain, i);
  }

  /** Each call of the heap is a step of the abstract map, and the pointer it answers is the payload's address. */
  method Perform(heap: KernelHeap, op: ClientOp) returns (ptr: Word, ghost out: nat)
    requires heap.Valid() && CanPerform(heap, op)
    modifies heap, heap.space, heap.space.vm.phys, heap.space.vm.frames, heap.space.vm.frames.bitmap
    ensures heap.Valid()
    ensures Step(old(heap.Clients()), op, out, heap.Clients())
    ensures ptr == if Answers(op) then heap.Address(out) else 0
  {
    hide HeapOK, KernelHeap.Valid, Contents, KernelHeap.GetField, HandedOut, Moved, Malloc, Free, RoundedWords, ByteAt,
        WithByteAt;
    ptr, out := 0, 0;
    match op {
      case Alloc(length) =>
        out := Handed(heap.Model(), RoundedWords(length));
        ptr := heap.Kmalloc(length);
      case Calloc(nmemb, size) =>
        out := Handed(heap.Model(), RoundedWords(nmemb * size));
        ptr := heap.Kcalloc(nmemb, size);
      case Release(p) =>
        ghost var i := OwnedBlock(heap, p);
        var status := heap.Kfree(heap.space.base + 4 * p, p, i);
      case Resize(p, size) =>
        ghost var i := OwnedBlock(heap, p);
        out := if 4 * heap.chain[i].size >= size then p else Handed(heap.Model(), RoundedWords(size));
        ptr := heap.Krealloc(heap.space.base + 4 * p, size, p, i);
      case Store(p, q, b) =>
        ghost var i := OwnedBlock(heap, p);
        heap.ClientStore(heap.space.base + 4 * p, q, b, i);
    }
  }

  /** The payload that kmalloc hands out. */
  ghost function Handed(h: Heap, words: nat): nat {
    var (h', i) := Malloc(h, words); h'.chain[i].Payload()
  }

  /**
   * Between calls, every page from _heap_start to _heap_start + _heap_size is mapped, to an in-use
   * frame of its own that is no page table, whatever the calls so far.
   */
  lemma HeapIsMapped(heap: KernelHeap)
    requires heap.Valid()
    ensures var v, first, n := heap.space.vm.State(), heap.space.base / PAGE, heap.heapSize / PAGE;
      && heap.space.base % PAGE == 0 && heap.heapSize % PAGE == 0 && first + n <= Paging.WINDOW_PAGE
      && (forall q: nat :: first <= q < first + n ==>
            Paging.Translate(v, q).Some? && FlatMemory.DataFrame(v, Paging.Translate(v, q).value))
      && (forall q: nat, r: nat :: first <= q < r < first + n ==> Paging.Translate(v, q) != Paging.Translate(v, r))
  {
    hide Paging.Translate, FlatMemory.DataFrame, Paging.MmuOK, HeapOK, Listed;
    heap.space.Bounded();
    assert heap.heapSize == PAGE * heap.space.pages;
  }

  // ---------------------------------------------------------------------------
  // Runs
  // ---------------------------------------------------------------------------

  ghost predicate IsRun(states: seq<Clients>, ops: seq<ClientOp>, outs: seq<nat>) {
    && |states| == |ops| + 1 && |outs| == |ops|
    && forall k :: 0 <= k < |ops| ==> Step(states[k], ops[k], outs[k], states[k + 1])
  }

  /** Where a payload is after one call: krealloc may move it. */
  function Next(p: nat, op: ClientOp, out: nat): nat {
    if op.Resize? && op.p == p then out else p
  }

  /** Where the payload p is after a run. */
  function Place(p: nat, ops: seq<ClientOp>, outs: seq<nat>): nat
    requires |outs| == |ops|
  {
    if ops == [] then p
    else
      var n := |ops| - 1;
      Next(Place(p, ops[..n], outs[..n]), ops[n], outs[n])
  }

  /** No call frees the payload, wherever it is by then. */
  predicate NeverFreed(p: nat, ops: seq<ClientOp>, outs: seq<nat>)
    requires |outs| == |ops|
  {
    ops != [] ==>
      var n := |ops| - 1;
      NeverFreed(p, ops[..n], outs[..n]) && ops[n] != Release(Place(p, ops[..n], outs[..n]))
  }

  /** The byte that was stored last to byte q of the payload. */
  function LastByte(start: Byte, p: nat, q: nat, ops: seq<ClientOp>, outs: seq<nat>): Byte
    requires |outs| == |ops|
  {
    if ops == [] then start
    else
      var n := |ops| - 1;
      Stored(LastByte(start, p, q, ops[..n], outs[..n]), Place(p, ops[..n], outs[..n]), q, ops[n])
  }

  function Stored(was: Byte, p: nat, q: nat, op: ClientOp): Byte {
    if op.Store? && op.p == p && op.q == q then op.b else was
  }

  /** One call leaves a payload's bytes alone, except for its own store, and takes them along when it moves. */
  lemma StepKeeps(a: Clients, op: ClientOp, out: nat, a': Clients, p: nat, q: nat)
    requires Step(a, op, out, a') && p in a && q / 4 < |a[p]| && op != Release(p)
    ensures var p' := Next(p, op, out);
      p' in a' && |a'[p']| >= |a[p]| && ByteAt(a'[p'], 0, q) == Stored(ByteAt(a[p], 0, q), p, q, op)
  {
    hide WithByteAt, ZeroBytes;
    if op.Store? && op.p == p {
      WithByteAtKeeps(a[p], 0, op.q, op.b, q);
    }
  }

  /**
   * Over every run of kmalloc, kcalloc, krealloc, kfree and client stores, a payload that its client
   * does not free stays live, wherever krealloc puts it, and never shrinks; each of its bytes reads
   * back what was stored there last.  No allocator step and no other client touches it.
   */
  lemma {:induction false} DataSurvives(states: seq<Clients>, ops: seq<ClientOp>, outs: seq<nat>, p: nat, q: nat)
    requires IsRun(states, ops, outs) && p in states[0] && q / 4 < |states[0][p]|
    requires NeverFreed(p, ops, outs)
    ensures var p', a := Place(p, ops, outs), states[|ops|];
      && p' in a && |a[p']| >= |states[0][p]|
      && ByteAt(a[p'], 0, q) == LastByte(ByteAt(states[0][p], 0, q), p, q, ops, outs)
    decreases |ops|
  {
    hide Step, ByteAt, Next;
    if ops != [] {
      var n := |ops| - 1;
      assert IsRun(states[..n + 1], ops[..n], outs[..n]);
      DataSurvives(states[..n + 1], ops[..n], outs[..n], p, q);
      StepKeeps(states[n], ops[n], outs[n], states[n + 1], Place(p, ops[..n], outs[..n]), q);
    }
  }

  /** What kcalloc hands out reads zero, over every run after it, until its client stores something else. */
  lemma ZeroUntilStored(before: Clients, nmemb: nat, size: nat, p: nat, states: seq<Clients>, ops: seq<ClientOp>,
      outs: seq<nat>, q: nat)
    requires IsRun(states, ops, outs) && Step(before, Calloc(nmemb, size), p, states[0])
    requires q < nmemb * size && NeverFreed(p, ops, outs)
    ensures var p', a := Place(p, ops, outs), states[|ops|];
      p' in a && q / 4 < |a[p']| && ByteAt(a[p'], 0, q) == LastByte(0, p, q, ops, outs)
  {
    hide IsRun, ByteAt;
    DataSurvives(states, ops, outs, p, q);
  }

  /** A run of several live payloads keeps them apart: different ones are never moved to the same place. */
  lemma {:induction false} PlacesApart(states: seq<Clients>, ops: seq<ClientOp>, outs: seq<nat>, p: nat, r: nat)
    requires IsRun(states, ops, outs) && p in states[0] && r in states[0] && p != r
    requires NeverFreed(p, ops, outs) && NeverFreed(r, ops, outs)
    ensures Place(p, ops, outs) in states[|ops|] && Place(r, ops, outs) in states[|ops|]
    ensures Place(p, ops, outs) != Place(r, ops, outs)
    decreases |ops|
  {
    hide ByteAt, WithByteAt, ZeroBytes;
    if ops != [] {
      var n := |ops| - 1;
      assert IsRun(states[..n + 1], ops[..n], outs[..n]);
      PlacesApart(states[..n + 1], ops[..n], outs[..n], p, r);
      assert Step(states[n], ops[n], outs[n], states[n + 1]);
    }
  }
}
