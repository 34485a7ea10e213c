/** The page frame allocator: a descending stack of frames beside a bit-packed in-use map. */
module PhyMM {
  import opened Words

  // ---------------------------------------------------------------------------
  // Specification state.  Frame f is the page at physical address 4096 * f; the pool is the `count`
  // frames from `first` on, and `top` is the frame in the stack slot that _hwas_sp points to.
  // ---------------------------------------------------------------------------

  datatype Frames = Frames(first: nat, count: nat, top: int, used: set<nat>)

  ghost predicate PoolOK(s: Frames) {
    && 0 < s.count
    && s.first + s.count < 0x10_0000
    && s.first - 1 <= s.top < s.first + s.count
    && forall f :: f in s.used ==> InPool(s, f)
  }

  predicate InPool(s: Frames, f: nat) {
    s.first <= f < s.first + s.count
  }

  function Range(start: nat, n: nat): (r: set<nat>)
    ensures forall f: nat :: f in r <==> start <= f < start + n
  {
    if n == 0 then {} else Range(start, n - 1) + {start + n - 1}
  }

  /** Frames start to start + n - 1 are all in the pool and free. */
  ghost predicate FreeRun(s: Frames, start: nat, n: nat) {
    && s.first <= start && start + n <= s.first + s.count
    && forall f: nat :: start <= f < start + n ==> f !in s.used
  }

  ghost predicate HasRun(s: Frames, n: nat) {
    exists start: nat :: FreeRun(s, start, n)
  }

  /** The highest frame from `top` down to `first` that is free, or first - 1. */
  function TopFree(used: set<nat>, first: nat, top: int): (k: int)
    requires first - 1 <= top
    ensures first - 1 <= k <= top
    ensures k >= first ==> k !in used
    ensures forall f: nat :: k < f <= top ==> f in used
    decreases top - first + 1
  {
    if top < first then top else if top !in used then top else TopFree(used, first, top - 1)
  }

  /** The lowest start, from `from` on, of n free frames, or -1. */
  ghost function LowestRun(s: Frames, n: nat, from: nat): (k: int)
    requires s.first <= from
    ensures k == -1 || (from <= k && FreeRun(s, k, n))
    ensures forall i: nat :: from <= i && (k == -1 || i < k) ==> !FreeRun(s, i, n)
    decreases s.first + s.count + 1 - from
  {
    if from + n > s.first + s.count then -1
    else if FreeRun(s, from, n) then from
    else LowestRun(s, n, from + 1)
  }

  /** hwpalloc checks for an empty stack, but neither search checks for exhaustion. */
  ghost predicate CanServe(s: Frames, n: nat) {
    && s.top != s.first
    && if n == 1 then exists f: nat :: s.first <= f <= s.top && f !in s.used
       else HasRun(s, n)
  }

  /** The frame that hwpalloc chooses: the highest free one at or below the top, or the lowest run. */
  ghost function Chosen(s: Frames, n: nat): (k: nat)
    requires PoolOK(s) && CanServe(s, n)
    ensures n == 1 ==> s.first <= k <= s.top && k !in s.used
    ensures n == 1 ==> forall f: nat :: f <= s.top && f !in s.used ==> f <= k
    ensures n != 1 ==> FreeRun(s, k, n)
    ensures n != 1 ==> forall i: nat :: FreeRun(s, i, n) ==> k <= i
  {
    if n == 1 then TopFree(s.used, s.first, s.top) else LowestRun(s, n, s.first)
  }

  /** The state that hwpalloc leaves. */
  ghost function AllocFrames(s: Frames, n: nat): Frames
    requires PoolOK(s) && CanServe(s, n)
  {
    var k := Chosen(s, n);
    if n == 1 then s.(top := k - 1, used := s.used + {k})
    else s.(used := s.used + Range(k, n))
  }

  /** What hwpfree answers, and the state that it leaves. */
  function FreeFrames(s: Frames, hwaddr: nat, n: nat): (Status, Frames) {
    var f := hwaddr / PAGE;
    if !InPool(s, f) then (InvalidMem, s)
    else if f !in s.used then (DoubleFree, s)
    else if n == 1 then (BorkdMem, s)
    else (Ok, s.(used := s.used - Range(f, n)))
  }

  /**
   * When hwpfree answers what, for every address and count: outside the pool, on a frame that is not in
   * use, and for a single frame it refuses and changes nothing; otherwise exactly the n frames go.
   */
  lemma FreeAnswers(s: Frames, hwaddr: nat, n: nat)
    ensures var (status, s') := FreeFrames(s, hwaddr, n);
      && (status == InvalidMem <==> hwaddr < 4096 * s.first || hwaddr >= 4096 * (s.first + s.count))
      && (status == DoubleFree <==> status != InvalidMem && hwaddr / 4096 !in s.used)
      && (status == BorkdMem <==> status != InvalidMem && hwaddr / 4096 in s.used && n == 1)
      && (status != Ok ==> s' == s)
      && (status == Ok ==>
            && s' == s.(used := s'.used)
            && forall f: nat :: f in s'.used <==> f in s.used && !(hwaddr / 4096 <= f < hwaddr / 4096 + n))
  {
  }

  // ---------------------------------------------------------------------------
  // The bitmap bytes
  // ---------------------------------------------------------------------------

  /** The position of frame i in its byte. */
  function BitOf(i: nat): (k: bv8)
    ensures k < 8 && k as int == i % 8
  {
    (i % 8) as bv8
  }

  function ByteGet(b: bv8, k: bv8): bv8
    requires k < 8
  {
    (b & (1 << k)) >> k
  }

  function ByteSet(b: bv8, k: bv8, inUse: bool): bv8
    requires k < 8
  {
    if inUse then b | (1 << k) else b & !(1 << k)
  }

  lemma ByteSetGet(b: bv8, k: bv8, j: bv8, inUse: bool)
    requires k < 8 && j < 8
    ensures ByteGet(b, j) == 0 || ByteGet(b, j) == 1
    ensures ByteGet(ByteSet(b, k, inUse), j) == if j == k then (if inUse then 1 else 0) else ByteGet(b, j)
  {
  }

  /** The in-use bit of the frame is bit k of its byte, lowest first. */
  lemma ByteGetIsBit(b: bv8, k: bv8)
    requires k < 8
    ensures ByteGet(b, k) == (b >> k) & 1
  {
  }

  function BitmapGet(bits: seq<bv8>, i: nat): (r: bv8)
    requires i / 8 < |bits|
  {
    ByteGet(bits[i / 8], BitOf(i))
  }

  predicate Marked(bits: seq<bv8>, first: nat, f: nat)
    requires first <= f && (f - first) / 8 < |bits|
  {
    BitmapGet(bits, f - first) == 1
  }

  /** The frames whose bit is set. */
  function UsedSet(bits: seq<bv8>, first: nat, count: nat): set<nat>
    requires count <= 8 * |bits|
  {
    set f: nat | first <= f < first + count && Marked(bits, first, f)
  }

  /** Storing one bit adds or removes exactly one frame. */
  lemma StoreBit(bits: seq<bv8>, first: nat, count: nat, i: nat, inUse: bool)
    requires count <= 8 * |bits| && i < count
    ensures var bits' := bits[i / 8 := ByteSet(bits[i / 8], BitOf(i), inUse)];
            var used := UsedSet(bits, first, count);
            UsedSet(bits', first, count) == if inUse then used + {first + i} else used - {first + i}
  {
    var bits' := bits[i / 8 := ByteSet(bits[i / 8], BitOf(i), inUse)];
    forall f: nat | first <= f < first + count
      ensures Marked(bits', first, f) <==> if f == first + i then inUse else Marked(bits, first, f)
    {
      ByteSetGet(bits[i / 8], BitOf(i), BitOf(f - first), inUse);
    }
  }

  // ---------------------------------------------------------------------------
  // The allocator
  // ---------------------------------------------------------------------------

  /** Where init_phymm puts the bitmap: at the address of the top stack slot, rounded up to 256. */
  function BitmapStart(bp: nat, count: nat): nat
    requires count > 0
  {
    (bp + 4 * (count - 1) + 0xff) / 0x100 * 0x100
  }

  /**
   * The rounding clears the top slot itself exactly when that slot is not 256-byte aligned; a count
   * that is a multiple of 8, which the bitmap needs anyway, keeps the two arrays apart.
   */
  lemma BitmapBehindStack(bp: nat, count: nat)
    requires bp % 4 == 0 && count > 0
    ensures BitmapStart(bp, count) >= bp + 4 * count <==> (bp + 4 * (count - 1)) % 0x100 != 0
    ensures bp % 0x1000 == 0 && count % 8 == 0 ==> BitmapStart(bp, count) >= bp + 4 * count
  {
    RoundedPast(bp / 4 + count - 1);
    if bp % 0x1000 == 0 && count % 8 == 0 {
      NotAligned(bp / 0x1000, count / 8);
    }
  }

  /** The bitmap has count / 8 bytes: every frame finds its bit there exactly when 8 divides the count. */
  lemma BitmapCovers(count: nat)
    ensures (forall i: nat :: i < count ==> i / 8 < count / 8) <==> count % 8 == 0
  {
    assert count % 8 != 0 ==> (count - 1) / 8 == count / 8;
  }

  lemma RoundedPast(slot: nat)
    ensures (4 * slot + 0xff) / 0x100 * 0x100 >= 4 * slot + 4 <==> 4 * slot % 0x100 != 0
  {
    var q, r := slot / 64, slot % 64;
    assert 4 * slot == 0x100 * q + 4 * r;
  }

  lemma NotAligned(pages: nat, bytes: nat)
    requires bytes > 0
    ensures (0x1000 * pages + 4 * (8 * bytes - 1)) % 0x100 != 0
  {
    var n := 128 * pages + bytes;
    assert 0x1000 * pages + 4 * (8 * bytes - 1) == 0x100 * ((n - 1) / 8) + 32 * ((n - 1) % 8) + 28;
  }

  class FrameAllocator {
    const mmstart: Word
    const count: nat
    const stack: array<Word>
    const bitmap: array<bv8>
    var sp: int

    ghost const Repr: set<object>

    /** Slot i of the stack holds frame i forever: no single frame is ever pushed back. */
    ghost predicate Valid()
      reads this, stack, bitmap
    {
      && Repr == {this, stack, bitmap}
      && mmstart % PAGE == 0
      && 0 < count
      && mmstart + PAGE * count < MEMORY_LIMIT
      && stack.Length == count
      && 8 * bitmap.Length == count
      && -1 <= sp < count
      && forall i :: 0 <= i < count ==> stack[i] == mmstart + PAGE * i
    }

    ghost function State(): (s: Frames)
      reads this, stack, bitmap
      requires Valid()
      ensures PoolOK(s)
    {
      var first := mmstart / PAGE;
      Frames(first, count, first + sp, UsedSet(bitmap[..], first, count))
    }

    /** init_phymm, from the memory region it picks: at most 128 frames, all of them free. */
    constructor (regionBase: nat, regionLength: nat, kernelSize: nat)
      requires (regionBase + kernelSize) % PAGE == 0
      requires kernelSize + 8 * PAGE <= regionLength
      requires regionLength - kernelSize < 128 * PAGE ==> (regionLength - kernelSize) / PAGE % 8 == 0
      requires regionBase + regionLength < MEMORY_LIMIT
      ensures Valid() && fresh(Repr)
      ensures mmstart == regionBase + kernelSize
      ensures State() == Frames(mmstart / PAGE, count, mmstart / PAGE + count - 1, {})
      ensures count == if (regionLength - kernelSize) / PAGE > 128 then 128 else (regionLength - kernelSize) / PAGE
    {
      var start := regionBase + kernelSize;
      var size := (regionLength - kernelSize) / PAGE;
      if size > 128 {
        size := 128;
      }
      var slots := new Word[size];
      for i := 0 to size
        invariant forall j :: 0 <= j < i ==> slots[j] == start + PAGE * j
      {
        slots[i] := start + PAGE * i;
      }
      var bits := new bv8[size / 8];
      for i := 0 to size / 8
        invariant forall j :: 0 <= j < i ==> bits[j] == 0
        invariant forall j :: 0 <= j < size ==> slots[j] == start + PAGE * j
      {
        bits[i] := 0;
      }
      mmstart, count, stack, bitmap, sp := start, size, slots, bits, size - 1;
      Repr := {this, slots, bits};
      new;
      assert forall f: nat :: start / PAGE <= f < start / PAGE + count ==> !Marked(bitmap[..], start / PAGE, f);
    }

    /** _hwa_inubm_get */
    function InUse(hwaddr: nat): (r: bv8)
      reads this, stack, bitmap
      requires Valid() && mmstart <= hwaddr < mmstart + PAGE * count
      ensures r == 0 || r == 1
      ensures r == 1 <==> hwaddr / PAGE in State().used
    {
      var pgidx := (hwaddr - mmstart) / PAGE;
      ByteSetGet(bitmap[pgidx / 8], BitOf(pgidx), BitOf(pgidx), true);
      assert hwaddr / PAGE == mmstart / PAGE + pgidx;
      assert BitmapGet(bitmap[..], pgidx) == 1 <==> Marked(bitmap[..], mmstart / PAGE, hwaddr / PAGE);
      ByteGet(bitmap[pgidx / 8], BitOf(pgidx))
    }

    /** _hwa_inubm_set */
    method SetInUse(hwaddr: nat, inUse: bool)
      requires Valid() && mmstart <= hwaddr < mmstart + PAGE * count
      modifies bitmap
      ensures Valid()
      ensures var s := old(State()); var f := hwaddr / PAGE;
              State() == s.(used := if inUse then s.used + {f} else s.used - {f})
    {
      var pgidx := (hwaddr - mmstart) / PAGE;
      StoreBit(bitmap[..], mmstart / PAGE, count, pgidx, inUse);
      bitmap[pgidx / 8] := ByteSet(bitmap[pgidx / 8], BitOf(pgidx), inUse);
      assert bitmap[..] == old(bitmap[..])[pgidx / 8 := ByteSet(old(bitmap[..])[pgidx / 8], BitOf(pgidx), inUse)];
    }

    /** The run search of hwpalloc: it falls short of n exactly when there is no run of n free frames. */
    method FindRun(n: nat) returns (i: nat, cons: nat)
      requires Valid()
      ensures cons <= n && cons <= i <= count
      ensures cons == n <==> HasRun(State(), n)
      ensures cons == n ==> mmstart / PAGE + i - cons == LowestRun(State(), n, mmstart / PAGE)
    {
      i, cons := 0, 0;
      ghost var s := State();
      while i < count
        invariant cons <= n && cons <= i <= count
        invariant forall f: nat :: s.first + i - cons <= f < s.first + i ==> f !in s.used
        invariant i > cons ==> s.first + i - cons - 1 in s.used
        invariant forall k: nat :: s.first <= k < s.first + i - cons ==> !FreeRun(s, k, n)
        decreases count - i
      {
        if cons == n {
          break;
        }
        assert stack[i] / PAGE == s.first + i;
        if InUse(stack[i]) == 0 {
          cons := cons + 1;
        } else {
          assert forall k: nat :: s.first + i - cons <= k <= s.first + i && FreeRun(s, k, n) ==> s.first + i in Range(k, n);
          cons := 0;
        }
        i := i + 1;
      }
      if cons == n {
        assert FreeRun(s, s.first + i - cons, n);
      } else {
        assert forall k: nat :: s.first + i - cons <= k ==> !FreeRun(s, k, n);
      }
    }

    /** The single-page branch of hwpalloc: pop until a frame that is not in use comes up. */
    method PopFree() returns (addr: Word)
      requires Valid() && CanServe(State(), 1)
      modifies this, bitmap
      ensures Valid()
      ensures addr == PAGE * Chosen(old(State()), 1)
      ensures State() == AllocFrames(old(State()), 1)
    {
      hide UsedSet;
      ghost var s := State();
      addr := stack[sp];
      sp := sp - 1;
      while InUse(addr) == 1
        invariant -1 <= sp < count - 1 && addr == mmstart + PAGE * (sp + 1)
        invariant Valid() && State() == s.(top := s.first + sp)
        invariant s.first <= TopFree(s.used, s.first, s.top) <= s.first + sp + 1
        invariant forall f: nat :: s.first + sp + 1 < f <= s.top ==> f in s.used
        decreases sp + 1
      {
        addr := stack[sp];
        sp := sp - 1;
      }
      SetInUse(addr, true);
    }

    /** The multi-page branch of hwpalloc: take the first run that the scan finds. */
    method TakeRun(n: nat) returns (addr: Word)
      requires Valid() && n != 1 && CanServe(State(), n)
      modifies bitmap
      ensures Valid()
      ensures addr == PAGE * Chosen(old(State()), n)
      ensures State() == AllocFrames(old(State()), n)
    {
      hide UsedSet, LowestRun;
      ghost var s := State();
      var i, cons := FindRun(n);
      assert FreeRun(s, s.first + i - cons, n);
      assert n == 0 ==> FreeRun(s, s.first, n);
      addr := stack[i - cons];
      for k := 0 to n
        invariant Valid()
        invariant State() == s.(used := s.used + Range(s.first + i - cons, k))
      {
        assert (addr + k * 4096) / PAGE == s.first + i - cons + k;
        SetInUse(addr + k * 4096, true);
      }
    }

    method Hwpalloc(n: nat) returns (addr: Word)
      requires Valid() && n < 0x1_0000
      requires sp != 0 ==> CanServe(State(), n)
      modifies this, bitmap
      ensures Valid()
      ensures old(sp) == 0 ==> addr == 0 && State() == old(State())
      ensures old(sp) != 0 ==> addr == PAGE * Chosen(old(State()), n) && State() == AllocFrames(old(State()), n)
    {
      if sp == 0 {
        return 0;
      }
      if n == 1 {
        addr := PopFree();
      } else {
        addr := TakeRun(n);
      }
    }

    method Hwpfree(hwaddr: Word, n: nat) returns (status: Status)
      requires Valid() && n < 0x1_0000
      requires FreeFrames(State(), hwaddr, n).0 == Ok ==> hwaddr / PAGE + n <= State().first + State().count
      modifies this, bitmap
      ensures Valid()
      ensures (status, State()) == FreeFrames(old(State()), hwaddr, n)
    {
      hide UsedSet;
      ghost var s := State();
      if hwaddr < mmstart || hwaddr >= mmstart + count * 4096 {
        return InvalidMem;
      }
      if InUse(hwaddr) == 0 {
        return DoubleFree;
      }
      if n == 1 {
        if sp < count {
          return BorkdMem;
        }
        // sp never climbs to count, so the push that follows in the source never runs.
        assert false;
      }
      var addr: int := hwaddr;
      for i := 0 to n
        invariant Valid() && sp == old(sp)
        invariant addr == hwaddr + PAGE * i
        invariant State() == s.(used := s.used - Range(hwaddr / PAGE, i))
      {
        assert addr / PAGE == hwaddr / PAGE + i;
        SetInUse(addr, false);
        addr := addr + 4096;
      }
      return Ok;
    }
  }
}
