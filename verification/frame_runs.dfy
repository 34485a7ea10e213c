/** Whole runs of the frame allocator: every frame in use belongs to exactly one live allocation. */
module FrameRuns {
  import opened Words
  import opened PhyMM

  datatype Grant = Grant(start: nat, n: nat) {
    predicate Owns(i: nat) { start <= i < start + n }
  }

  /** The two calls; any address and count may be given back. */
  datatype FrameOp = Take(n: nat) | GiveBack(hwaddr: nat, n: nat)

  /** The allocator beside the grants that its callers hold. */
  datatype Ledger = Ledger(frames: Frames, live: seq<Grant>)

  /** Callers ask for what can be served, and what hwpfree accepts from them is a grant of theirs. */
  ghost predicate Admissible(l: Ledger, op: FrameOp) {
    match op
    case Take(n) => PoolOK(l.frames) && CanServe(l.frames, n)
    case GiveBack(hwaddr, n) => FreeFrames(l.frames, hwaddr, n).0 == Ok ==> n == 0 || Grant(hwaddr / PAGE, n) in l.live
  }

  function IndexOf(live: seq<Grant>, g: Grant): (k: nat)
    ensures k <= |live| && (k < |live| ==> live[k] == g)
    ensures k < |live| <==> g in live
  {
    if live == [] || live[0] == g then 0 else 1 + IndexOf(live[1..], g)
  }

  ghost function Apply(l: Ledger, op: FrameOp): Ledger
    requires op.Take? ==> Admissible(l, op)
  {
    match op
    case Take(n) =>
      Ledger(AllocFrames(l.frames, n), l.live + [Grant(Chosen(l.frames, n), n)])
    case GiveBack(hwaddr, n) =>
      var (status, frames) := FreeFrames(l.frames, hwaddr, n);
      var k := IndexOf(l.live, Grant(hwaddr / PAGE, n));
      Ledger(frames, if status == Ok && k < |l.live| then Without(l.live, k) else l.live)
  }

  ghost predicate AllAdmissible(l: Ledger, ops: seq<FrameOp>)
    decreases |ops|
  {
    ops != [] ==> Admissible(l, ops[0]) && AllAdmissible(Apply(l, ops[0]), ops[1..])
  }

  ghost function Execute(l: Ledger, ops: seq<FrameOp>): Ledger
    requires AllAdmissible(l, ops)
    decreases |ops|
  {
    if ops == [] then l else Execute(Apply(l, ops[0]), ops[1..])
  }

  ghost predicate Owned(live: seq<Grant>, i: nat) {
    exists k :: 0 <= k < |live| && live[k].Owns(i)
  }

  /** The bitmap is the union of the live grants, and no two of them share a frame. */
  ghost predicate Exclusive(l: Ledger) {
    && PoolOK(l.frames)
    && (forall k :: 0 <= k < |l.live| ==> InPool(l.frames, l.live[k].start) && l.live[k].start + l.live[k].n <= l.frames.first + l.frames.count)
    && (forall i: nat :: i in l.frames.used <==> Owned(l.live, i))
    && Disjoint(l.live)
  }

  ghost predicate Disjoint(live: seq<Grant>) {
    forall j, k, i: nat :: 0 <= j < k < |live| && live[j].Owns(i) ==> !live[k].Owns(i)
  }

  function Without(live: seq<Grant>, k: nat): seq<Grant>
    requires k < |live|
  {
    live[..k] + live[k + 1..]
  }

  lemma WithoutOwns(live: seq<Grant>, k: nat)
    requires k < |live| && Disjoint(live)
    ensures Disjoint(Without(live, k))
    ensures forall i: nat :: Owned(Without(live, k), i) <==> Owned(live, i) && !live[k].Owns(i)
  {
    var rest := Without(live, k);
    assert forall j :: 0 <= j < |rest| ==> rest[j] == live[if j < k then j else j + 1];
    forall i: nat
      ensures Owned(rest, i) <==> Owned(live, i) && !live[k].Owns(i)
    {
      if j :| 0 <= j < |live| && live[j].Owns(i) && j != k {
        assert rest[if j < k then j else j - 1].Owns(i);
      }
    }
  }

  lemma ExclusiveTake(l: Ledger, n: nat)
    requires Exclusive(l) && CanServe(l.frames, n)
    ensures Exclusive(Apply(l, Take(n)))
    ensures forall i: nat :: Grant(Chosen(l.frames, n), n).Owns(i) ==> !Owned(l.live, i)
  {
    hide LowestRun;
    var l' := Apply(l, Take(n));
    var g := Grant(Chosen(l.frames, n), n);
    assert n == 0 ==> FreeRun(l.frames, l.frames.first, 0);
    assert PoolOK(l'.frames) && InPool(l'.frames, g.start) && g.start + g.n <= l'.frames.first + l'.frames.count;
    assert forall i: nat :: g.Owns(i) ==> !Owned(l.live, i);
    assert Disjoint(l'.live);
    forall i: nat
      ensures Owned(l'.live, i) <==> Owned(l.live, i) || g.Owns(i)
    {
      if g.Owns(i) {
        assert l'.live[|l.live|].Owns(i);
      }
      if k :| 0 <= k < |l.live| && l.live[k].Owns(i) {
        assert l'.live[k].Owns(i);
      }
    }
  }

  /** What hwpfree refuses leaves the map and every grant. */
  lemma RefusedKeeps(l: Ledger, hwaddr: nat, n: nat)
    requires FreeFrames(l.frames, hwaddr, n).0 != Ok
    ensures Apply(l, GiveBack(hwaddr, n)) == l
  {
    FreeAnswers(l.frames, hwaddr, n);
  }

  lemma ReturnedGrant(l: Ledger, hwaddr: nat, n: nat)
    requires Exclusive(l) && FreeFrames(l.frames, hwaddr, n).0 == Ok && Grant(hwaddr / PAGE, n) in l.live
    ensures Exclusive(Apply(l, GiveBack(hwaddr, n)))
  {
    var k := IndexOf(l.live, Grant(hwaddr / PAGE, n));
    FreeAnswers(l.frames, hwaddr, n);
    WithoutOwns(l.live, k);
    hide FreeFrames, IndexOf;
  }

  /**
   * For every address and count: the map stays the union of the live grants if and only if the call is
   * refused, frees nothing, or names exactly a live grant.  Freeing part of a run, or more than it, does not.
   */
  lemma GiveBackIff(l: Ledger, hwaddr: nat, n: nat)
    requires Exclusive(l)
    ensures Exclusive(Apply(l, GiveBack(hwaddr, n))) <==>
            FreeFrames(l.frames, hwaddr, n).0 != Ok || n == 0 || Grant(hwaddr / PAGE, n) in l.live
  {
    var l', f := Apply(l, GiveBack(hwaddr, n)), hwaddr / PAGE;
    FreeAnswers(l.frames, hwaddr, n);
    if FreeFrames(l.frames, hwaddr, n).0 == Ok {
      if Grant(f, n) in l.live {
        ReturnedGrant(l, hwaddr, n);
      } else if n == 0 {
        assert l'.frames.used == l.frames.used;
      } else {
        assert f in l.frames.used && f !in l'.frames.used && Owned(l'.live, f);
      }
    }
  }

  /** Giving back a grant: a single frame is refused and any longer one is taken back, exactly. */
  lemma ExclusiveGiveBack(l: Ledger, k: nat)
    requires Exclusive(l) && k < |l.live|
    ensures var l' := Apply(l, GiveBack(PAGE * l.live[k].start, l.live[k].n));
      && Exclusive(l')
      && (l.live[k].n == 1 ==> l' == l)
      && (l.live[k].n >= 2 ==> forall i: nat :: i in l'.frames.used <==> i in l.frames.used && !l.live[k].Owns(i))
  {
    var g := l.live[k];
    assert PAGE * g.start / PAGE == g.start;
    FreeAnswers(l.frames, PAGE * g.start, g.n);
    GiveBackIff(l, PAGE * g.start, g.n);
    if g.n >= 1 {
      assert g.Owns(g.start);
      assert g.start in l.frames.used;
    }
  }

  /** Freeing a grant of two or more frames a second time is refused. */
  lemma SecondFreeRefused(l: Ledger, k: nat)
    requires Exclusive(l) && k < |l.live| && l.live[k].n >= 2
    ensures var g := l.live[k];
      var l' := Apply(l, GiveBack(PAGE * g.start, g.n));
      forall n: nat :: FreeFrames(l'.frames, PAGE * g.start, n) == (DoubleFree, l'.frames)
  {
    var g := l.live[k];
    assert PAGE * g.start / PAGE == g.start;
    ExclusiveGiveBack(l, k);
    assert g.Owns(g.start);
  }

  /** How many single frames a run asks for. */
  function Singles(ops: seq<FrameOp>): nat {
    if ops == [] then 0 else (if ops[0] == Take(1) then 1 else 0) + Singles(ops[1..])
  }

  /**
   * Over every run, with refused calls on any address in it, frames in use and live grants agree and
   * nothing is granted twice; and since no single frame is ever taken back, the stack pointer only
   * falls, once at least for each.
   */
  lemma {:induction false} ExclusiveRuns(l: Ledger, ops: seq<FrameOp>)
    requires Exclusive(l) && AllAdmissible(l, ops)
    ensures Exclusive(Execute(l, ops))
    ensures Execute(l, ops).frames.top + Singles(ops) <= l.frames.top
    decreases |ops|
  {
    if ops != [] {
      match ops[0] {
        case Take(n) => ExclusiveTake(l, n);
        case GiveBack(hwaddr, n) => GiveBackIff(l, hwaddr, n);
      }
      ExclusiveRuns(Apply(l, ops[0]), ops[1..]);
    }
  }

  /** Freeing a fresh run of frames restores the allocator exactly, unless the run is one frame long. */
  lemma AllocFreeRoundTrip(s: Frames, n: nat)
    requires PoolOK(s) && CanServe(s, n) && n >= 1
    ensures var (status, s') := FreeFrames(AllocFrames(s, n), PAGE * Chosen(s, n), n);
            if n == 1 then status == BorkdMem && s' == AllocFrames(s, n) else status == Ok && s' == s
  {
    var k := Chosen(s, n);
    assert k in Range(k, n);
    assert s.used + Range(k, n) - Range(k, n) == s.used;
  }
}
