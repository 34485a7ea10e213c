/** Whole runs of heap accesses and growths on the paged machine. */
module FlatRuns {
  import opened Words
  import opened PhyMM
  import opened Paging
  import opened VirtMM
  import opened FlatMemory

  /** What the heap does to the machine: store a word of the heap, or map pages at its end. */
  datatype Access = StoreAt(i: nat, w: Word) | Grow(pages: nat)

  ghost predicate CanDo(v: Mmu, first: nat, n: nat, a: Access)
    requires Window(v, first, n)
  {
    match a
    case StoreAt(i, _) => i < 1024 * n
    case Grow(k) => CanGrow(v, first, n, k)
  }

  ghost function PagesAfter(n: nat, a: Access): nat {
    if a.Grow? then n + a.pages else n
  }

  ghost function Do(v: Mmu, first: nat, n: nat, a: Access): (v': Mmu)
    requires Window(v, first, n) && CanDo(v, first, n, a)
    ensures Window(v', first, PagesAfter(n, a))
  {
    hide Window, View, CanGrow, Grown;
    match a
    case StoreAt(i, w) => StoreIsFlat(v, first, n, i, w); StoreWord(v, WordAddr(first, i), w)
    case Grow(k) => GrownWindow(v, first, n, k); Grown(v, first, n, k)
  }

  lemma DoStores(v: Mmu, first: nat, n: nat, a: Access, i: nat)
    requires Window(v, first, n) && CanDo(v, first, n, a) && i < 1024 * n
    ensures i < 1024 * PagesAfter(n, a)
    ensures View(Do(v, first, n, a), first, PagesAfter(n, a))[i] == Stored(View(v, first, n)[i], i, a)
  {
    hide Window, Grown, WordOf, CanGrow;
    match a {
      case StoreAt(k, w) => StoreIsFlat(v, first, n, k, w);
      case Grow(k) => GrowthIsFlat(v, first, n, k);
    }
  }

  /** Word i of flat memory after one access. */
  function Stored(old_: Word, i: nat, a: Access): Word {
    if a.StoreAt? && a.i == i then a.w else old_
  }

  /** Word i of flat memory after a run: the value last stored to it. */
  function LastStored(start: Word, i: nat, run: seq<Access>): Word
    decreases |run|
  {
    if run == [] then start else LastStored(Stored(start, i, run[0]), i, run[1..])
  }

  ghost predicate CanRun(v: Mmu, first: nat, n: nat, run: seq<Access>)
    requires Window(v, first, n)
    decreases |run|
  {
    run != [] ==>
      CanDo(v, first, n, run[0]) && CanRun(Do(v, first, n, run[0]), first, PagesAfter(n, run[0]), run[1..])
  }

  ghost function Run(v: Mmu, first: nat, n: nat, run: seq<Access>): (r: (Mmu, nat))
    requires Window(v, first, n) && CanRun(v, first, n, run)
    ensures Window(r.0, first, r.1) && r.1 >= n
    decreases |run|
  {
    if run == [] then (v, n) else Run(Do(v, first, n, run[0]), first, PagesAfter(n, run[0]), run[1..])
  }

  /**
   * Over every run, every page of the heap is mapped, to an in-use frame of its own that is no page
   * table, and each word holds the value last stored to it: the heap is flat, non-aliasing memory.
   */
  lemma {:induction false} HeapIsFlatMemory(v: Mmu, first: nat, n: nat, run: seq<Access>)
    requires Window(v, first, n) && CanRun(v, first, n, run)
    ensures var (v', n') := Run(v, first, n, run);
      && (forall q: nat :: first <= q < first + n' ==> Translate(v', q).Some? && DataFrame(v', Translate(v', q).value))
      && (forall q: nat, r: nat :: first <= q < r < first + n' ==> Translate(v', q) != Translate(v', r))
      && (forall i: nat :: i < 1024 * n ==> View(v', first, n')[i] == LastStored(View(v, first, n)[i], i, run))
    decreases |run|
  {
    hide CanDo, Do, WordOf, Translate, MmuOK;
    if run != [] {
      forall i: nat | i < 1024 * n
        ensures View(Do(v, first, n, run[0]), first, PagesAfter(n, run[0]))[i] == Stored(View(v, first, n)[i], i, run[0])
      {
        DoStores(v, first, n, run[0], i);
      }
      HeapIsFlatMemory(Do(v, first, n, run[0]), first, PagesAfter(n, run[0]), run[1..]);
    }
  }
}
