/** The transmit ring of the network card: the driver fills slots, the card empties them, in any interleaving. */
module TxRing {
  import opened Arithmetic

  /** A transmit descriptor; `done` is the DD bit of its status. */
  datatype Desc = Desc(buffer: nat, length: nat, cmd: bv8, done: bool)

  const EMPTY := Desc(0, 0, 0, false)

  /** Where the driver is inside add_tx_buffer. */
  datatype Stage =
    | Outside
    | Waiting(buffer: nat, len: nat, eop: bool)   // in the busy-wait loop
    | Claimed(buffer: nat, len: nat, eop: bool)   // past it
    | Filled                                      // the descriptor is written, the tail is not

  /** The ring and both its users; `sent` and `completed` are the descriptors so far, in order. */
  datatype Ring = Ring(
    slots: seq<Desc>, tail: nat, stage: Stage,    // the driver's side
    card: nat, tdt: nat, tdh: nat,                // the card's ring length, tail and head registers
    sent: seq<Desc>, completed: seq<Desc>)

  datatype Event = Call(buffer: nat, len: nat, eop: bool) | Poll | Fill | Publish | Complete

  /** A ring of n slots that the card takes for one of `card` slots. */
  function InitialRing(n: nat, card: nat): Ring {
    Ring(seq(n, _ => EMPTY), 0, Outside, card, 0, 0, [], [])
  }

  /** The loop condition of add_tx_buffer: the descriptor is in use and has not been processed. */
  predicate Busy(d: Desc) {
    d.buffer != 0 && !d.done
  }

  /** Descriptor and command byte as add_tx_buffer writes them: RS always, IFCS and EOP on the last part of a packet. */
  function NewDesc(buffer: nat, len: nat, eop: bool): Desc {
    Desc(buffer, len * 2 % 0x1_0000, if eop then 0x0b else 0x08, false)
  }

  /** txtail++ and the wrap: past index `last` it starts over. */
  function Advance(tail: nat, last: int): nat {
    if tail + 1 > last then 0 else tail + 1
  }

  predicate Enabled(r: Ring, e: Event) {
    match e
    case Call(buffer, _, _) => r.stage.Outside? && buffer != 0
    case Poll => r.stage.Waiting?
    case Fill => r.stage.Claimed?
    case Publish => r.stage.Filled?
    case Complete => r.tdh != r.tdt
  }

  /** One step of the driver or of the card; the card works through its ring until head meets tail. */
  function Step(r: Ring, e: Event): Ring
    requires Enabled(r, e) && r.tail < |r.slots| && r.tdh < |r.slots|
  {
    match e
    case Call(buffer, len, eop) => r.(stage := Waiting(buffer, len, eop))
    case Poll =>
      if Busy(r.slots[r.tail]) then r else r.(stage := Claimed(r.stage.buffer, r.stage.len, r.stage.eop))
    case Fill =>
      r.(slots := r.slots[r.tail := NewDesc(r.stage.buffer, r.stage.len, r.stage.eop)],
         stage := Filled, sent := r.sent + [NewDesc(r.stage.buffer, r.stage.len, r.stage.eop)])
    case Publish =>
      var tail := Advance(r.tail, |r.slots| - 1);
      r.(tail := tail, tdt := tail, stage := Outside)
    case Complete =>
      r.(slots := r.slots[r.tdh := r.slots[r.tdh].(done := true)],
         tdh := Advance(r.tdh, r.card - 1), completed := r.completed + [r.slots[r.tdh]])
  }

  // ---------------------------------------------------------------------------
  // The invariant
  // ---------------------------------------------------------------------------

  /** How many submissions the card has been told of. */
  function Published(r: Ring): int {
    |r.sent| - if r.stage.Filled? then 1 else 0
  }

  /** Submission k is in flight: filled, and not completed yet. */
  predicate InFlight(r: Ring, k: nat) {
    |r.completed| <= k < |r.sent|
  }

  function SlotOf(r: Ring, k: nat): (j: nat)
    requires |r.slots| > 0
    ensures j < |r.slots|
  {
    k % |r.slots|
  }

  ghost predicate RingOK(r: Ring) {
    var n := |r.slots|;
    && n > 0 && r.card == n
    && |r.completed| <= Published(r) && |r.sent| - |r.completed| <= n
    && r.tail == r.tdt == SlotOf(r, Published(r)) && r.tdh == SlotOf(r, |r.completed|)
    && r.completed == r.sent[..|r.completed|]
    && (forall k: nat :: InFlight(r, k) ==> r.slots[SlotOf(r, k)] == r.sent[k] && Busy(r.slots[SlotOf(r, k)]))
    && (forall j: nat :: j < n && Busy(r.slots[j]) ==> exists k: nat :: InFlight(r, k) && SlotOf(r, k) == j)
    && (r.stage.Waiting? || r.stage.Claimed? ==> r.stage.buffer != 0)
    && (r.stage.Claimed? ==> !Busy(r.slots[r.tail]))
  }

  // ---------------------------------------------------------------------------
  // Arithmetic of the wrap
  // ---------------------------------------------------------------------------

  /** Submissions less than a round apart use different slots. */
  lemma SlotsApart(n: nat, j: nat, k: nat)
    requires n > 0 && j < k < j + n
    ensures j % n != k % n
  {
    var d := k / n - j / n;
    assert k - j == d * n + (k % n - j % n);
    MulAtLeast(d, n);
  }

  lemma NextSlot(n: nat, k: nat)
    requires n > 0
    ensures Advance(k % n, n - 1) == (k + 1) % n
  {
    var q, m := k / n, k % n;
    assert k == q * n + m;
    if m + 1 == n {
      assert k + 1 == (q + 1) * n;
      ModUnique(k + 1, n, q + 1, 0);
    } else {
      ModUnique(k + 1, n, q, m + 1);
    }
  }

  lemma RoundTrip(n: nat, k: nat)
    requires n > 0
    ensures (k + n) % n == k % n
  {
    assert k == k / n * n + k % n;
    assert k + n == (k / n + 1) * n + k % n;
    ModUnique(k + n, n, k / n + 1, k % n);
  }

  // ---------------------------------------------------------------------------
  // Every step keeps the invariant
  // ---------------------------------------------------------------------------

  lemma InitialOK(n: nat)
    requires n > 0
    ensures RingOK(InitialRing(n, n))
  {
  }

  /** The slot at the tail is busy exactly when the ring is full. */
  lemma TailBusyIffFull(r: Ring)
    requires RingOK(r) && !r.stage.Filled?
    ensures Busy(r.slots[r.tail]) <==> |r.sent| - |r.completed| == |r.slots|
  {
    var n := |r.slots|;
    if Busy(r.slots[r.tail]) {
      var k: nat :| InFlight(r, k) && SlotOf(r, k) == r.tail;
      if |r.sent| < k + n {
        SlotsApart(n, k, |r.sent|);
      }
    }
    if |r.sent| - |r.completed| == n {
      RoundTrip(n, |r.completed|);
      assert InFlight(r, |r.completed|);
    }
  }

  /** The new descriptor's slot is none of those in flight. */
  lemma FillInFlight(r: Ring, k: nat)
    requires RingOK(r) && r.stage.Claimed? && InFlight(Step(r, Fill), k)
    ensures var r' := Step(r, Fill);
      r'.slots[SlotOf(r', k)] == r'.sent[k] && Busy(r'.slots[SlotOf(r', k)])
  {
    TailBusyIffFull(r);
    if k < |r.sent| {
      assert InFlight(r, k);
      SlotsApart(|r.slots|, k, |r.sent|);
    }
  }

  lemma FillBusy(r: Ring, j: nat)
    requires RingOK(r) && r.stage.Claimed? && j < |r.slots| && Busy(Step(r, Fill).slots[j])
    ensures exists k: nat :: InFlight(Step(r, Fill), k) && SlotOf(Step(r, Fill), k) == j
  {
    var r' := Step(r, Fill);
    if j == r.tail {
      assert InFlight(r', |r.sent|) && SlotOf(r', |r.sent|) == j;
    } else {
      var k: nat :| InFlight(r, k) && SlotOf(r, k) == j;
      assert InFlight(r', k) && SlotOf(r', k) == j;
    }
  }

  lemma FillOK(r: Ring)
    requires RingOK(r) && r.stage.Claimed?
    ensures RingOK(Step(r, Fill))
  {
    hide Busy, NewDesc;
    var r' := Step(r, Fill);
    assert |r.sent| - |r.completed| < |r.slots| by {
      TailBusyIffFull(r);
    }
    forall k: nat | InFlight(r', k)
      ensures r'.slots[SlotOf(r', k)] == r'.sent[k] && Busy(r'.slots[SlotOf(r', k)])
    {
      FillInFlight(r, k);
    }
    forall j: nat | j < |r.slots| && Busy(r'.slots[j])
      ensures exists k: nat :: InFlight(r', k) && SlotOf(r', k) == j
    {
      FillBusy(r, j);
    }
  }

  lemma CompleteOK(r: Ring)
    requires RingOK(r) && r.tdh != r.tdt
    ensures RingOK(Step(r, Complete))
  {
    var r', n, c := Step(r, Complete), |r.slots|, |r.completed|;
    assert InFlight(r, c);
    NextSlot(n, c);
    forall k: nat | InFlight(r', k)
      ensures r'.slots[SlotOf(r', k)] == r'.sent[k] && Busy(r'.slots[SlotOf(r', k)])
    {
      assert InFlight(r, k);
      SlotsApart(n, c, k);
    }
    forall j: nat | j < n && Busy(r'.slots[j])
      ensures exists k: nat :: InFlight(r', k) && SlotOf(r', k) == j
    {
      var k: nat :| InFlight(r, k) && SlotOf(r, k) == j;
      assert k != c;
      assert InFlight(r', k) && SlotOf(r', k) == j;
    }
    assert r'.completed == r.sent[..c + 1];
  }

  lemma PublishOK(r: Ring)
    requires RingOK(r) && r.stage.Filled?
    ensures RingOK(Step(r, Publish))
  {
    var r' := Step(r, Publish);
    NextSlot(|r.slots|, Published(r));
    assert forall k: nat :: InFlight(r', k) <==> InFlight(r, k);
    assert forall k: nat :: SlotOf(r', k) == SlotOf(r, k);
  }

  lemma StepOK(r: Ring, e: Event)
    requires RingOK(r) && Enabled(r, e)
    ensures RingOK(Step(r, e)) && |Step(r, e).slots| == |r.slots|
    ensures r.sent <= Step(r, e).sent && r.completed <= Step(r, e).completed
  {
    match e {
      case Call(_, _, _) => SameRing(r, Step(r, e));
      case Poll => SameRing(r, Step(r, e));
      case Fill => FillOK(r);
      case Publish => PublishOK(r);
      case Complete => CompleteOK(r);
    }
  }

  lemma SameRing(r: Ring, r': Ring)
    requires RingOK(r) && !r.stage.Filled? && !r'.stage.Filled? && r' == r.(stage := r'.stage)
    requires r'.stage.Waiting? || r'.stage.Claimed? ==> r'.stage.buffer != 0
    requires r'.stage.Claimed? ==> !Busy(r.slots[r.tail])
    ensures RingOK(r')
  {
    assert forall k: nat :: InFlight(r', k) <==> InFlight(r, k);
    assert forall k: nat :: SlotOf(r', k) == SlotOf(r, k);
  }

  // ---------------------------------------------------------------------------
  // Every interleaving
  // ---------------------------------------------------------------------------

  predicate AllEnabled(r: Ring, es: seq<Event>)
    decreases |es|
  {
    es != [] ==>
      && Enabled(r, es[0]) && r.tail < |r.slots| && r.tdh < |r.slots|
      && AllEnabled(Step(r, es[0]), es[1..])
  }

  function Run(r: Ring, es: seq<Event>): Ring
    requires AllEnabled(r, es)
    decreases |es|
  {
    if es == [] then r else Run(Step(r, es[0]), es[1..])
  }

  lemma {:induction false} RunOK(r: Ring, es: seq<Event>)
    requires RingOK(r) && AllEnabled(r, es)
    ensures RingOK(Run(r, es)) && |Run(r, es).slots| == |r.slots|
    decreases |es|
  {
    if es != [] {
      StepOK(r, es[0]);
      RunOK(Step(r, es[0]), es[1..]);
    }
  }

  /**
   * In every interleaving of submissions and completions on a ring of n slots, the submissions in
   * flight are consecutive and at most n, submission k lies unharmed in slot k mod n until it is
   * completed, and descriptors are completed once each, in the order of submission.
   */
  lemma EveryInterleaving(n: nat, es: seq<Event>)
    requires n > 0 && AllEnabled(InitialRing(n, n), es)
    ensures var r := Run(InitialRing(n, n), es);
      && |r.slots| == n && |r.completed| <= |r.sent| <= |r.completed| + n
      && (forall k: nat :: |r.completed| <= k < |r.sent| ==> r.slots[k % n] == r.sent[k] && Busy(r.slots[k % n]))
      && r.completed == r.sent[..|r.completed|]
  {
    InitialOK(n);
    RunOK(InitialRing(n, n), es);
    var r := Run(InitialRing(n, n), es);
    forall k: nat | |r.completed| <= k < |r.sent|
      ensures r.slots[k % n] == r.sent[k] && Busy(r.slots[k % n])
    {
      assert InFlight(r, k) && SlotOf(r, k) == k % n;
    }
  }

  // ---------------------------------------------------------------------------
  // What is sent
  // ---------------------------------------------------------------------------

  /**
   * The descriptor asks for the caller's buffer: its address, twice its length in 16 bits, status
   * reports (bit 3) always, checksum and end of packet (bits 1 and 0) exactly on request, nothing else.
   */
  predicate Describes(d: Desc, buffer: nat, len: nat, eop: bool) {
    && d.buffer == buffer && d.length == 2 * len % 65536
    && d.cmd & 0x08 != 0 && d.cmd & 0xf4 == 0
    && (d.cmd & 0x02 != 0 <==> eop) && (d.cmd & 0x01 != 0 <==> eop)
  }

  lemma NewDescDescribes(buffer: nat, len: nat, eop: bool)
    ensures Describes(NewDesc(buffer, len, eop), buffer, len, eop) && !NewDesc(buffer, len, eop).done
    ensures buffer != 0 ==> Busy(NewDesc(buffer, len, eop))
  {
  }

  /** The calls among the events, in order. */
  function Calls(es: seq<Event>): (cs: seq<Event>)
    ensures forall k :: 0 <= k < |cs| ==> cs[k].Call?
  {
    if es == [] then [] else (if es[0].Call? then [es[0]] else []) + Calls(es[1..])
  }

  /** The calls made so far are those sent, in order, and the one that is under way, if any. */
  ghost predicate Traces(r: Ring, cs: seq<Event>) {
    && (forall k :: 0 <= k < |cs| ==> cs[k].Call?)
    && |cs| == |r.sent| + (if r.stage.Waiting? || r.stage.Claimed? then 1 else 0)
    && (forall k :: 0 <= k < |r.sent| ==> Describes(r.sent[k], cs[k].buffer, cs[k].len, cs[k].eop))
    && (r.stage.Waiting? || r.stage.Claimed? ==> cs[|cs| - 1] == Call(r.stage.buffer, r.stage.len, r.stage.eop))
  }

  lemma StepTraces(r: Ring, cs: seq<Event>, e: Event)
    requires Traces(r, cs) && Enabled(r, e) && r.tail < |r.slots| && r.tdh < |r.slots|
    ensures Traces(Step(r, e), cs + Calls([e]))
  {
    hide Describes, NewDesc;
    assert Calls([e]) == if e.Call? then [e] else [] by {
      assert [e][1..] == [];
    }
    if e == Fill {
      NewDescDescribes(r.stage.buffer, r.stage.len, r.stage.eop);
    }
  }

  lemma {:induction false} RunTraces(r: Ring, cs: seq<Event>, es: seq<Event>)
    requires Traces(r, cs) && AllEnabled(r, es)
    ensures Traces(Run(r, es), cs + Calls(es))
    decreases |es|
  {
    hide Traces;
    if es == [] {
      assert cs + Calls(es) == cs;
    } else {
      StepTraces(r, cs, es[0]);
      RunTraces(Step(r, es[0]), cs + Calls([es[0]]), es[1..]);
      assert [es[0]][1..] == [];
      assert cs + Calls([es[0]]) + Calls(es[1..]) == cs + Calls(es);
    }
  }

  /**
   * In every interleaving the k-th descriptor sent carries the arguments of the k-th call, and the
   * k-th one completed does too: buffers are transmitted once each, in the order of the calls.
   */
  lemma SentAsCalled(n: nat, es: seq<Event>, k: nat)
    requires n > 0 && AllEnabled(InitialRing(n, n), es)
    ensures var r, cs := Run(InitialRing(n, n), es), Calls(es);
      && |r.completed| <= |r.sent| <= |cs| <= |r.sent| + 1
      && (k < |r.sent| ==> Describes(r.sent[k], cs[k].buffer, cs[k].len, cs[k].eop))
      && (k < |r.completed| ==> Describes(r.completed[k], cs[k].buffer, cs[k].len, cs[k].eop))
  {
    hide Describes;
    RunTraces(InitialRing(n, n), [], es);
    assert [] + Calls(es) == Calls(es);
    EveryInterleaving(n, es);
  }

  // ---------------------------------------------------------------------------
  // The busy-wait
  // ---------------------------------------------------------------------------

  /**
   * The driver finds the tail slot busy only when the ring is full; but then tail and head coincide,
   * which the card takes for an empty ring, so neither side ever moves again.
   */
  lemma {:induction false} FullRingIsStuck(r: Ring, es: seq<Event>)
    requires RingOK(r) && r.stage.Waiting? && AllEnabled(r, es)
    ensures |r.sent| - |r.completed| == |r.slots| <==> Busy(r.slots[r.tail])
    ensures Busy(r.slots[r.tail]) ==> Run(r, es) == r
    decreases |es|
  {
    TailBusyIffFull(r);
    if Busy(r.slots[r.tail]) && es != [] {
      RoundTrip(|r.slots|, |r.completed|);
      assert r.tdh == r.tdt;
      assert Step(r, es[0]) == r;
      FullRingIsStuck(r, es[1..]);
    }
  }

  // ---------------------------------------------------------------------------
  // The periods as written
  // ---------------------------------------------------------------------------

  /** The driver's tail after k calls, when the wrap compares with `last`. */
  function TailAfter(k: nat, last: nat): nat {
    if k == 0 then 0 else Advance(TailAfter(k - 1, last), last)
  }

  lemma {:induction false} TailCounts(k: nat, last: nat)
    ensures TailAfter(k, last) == k % (last + 1)
  {
    if k > 0 {
      TailCounts(k - 1, last);
      NextSlot(last + 1, k - 1);
    }
  }

  /**
   * The driver wraps past index txqueue_n, and has txqueue_n slots: of m calls, each of which writes the
   * slot at its tail, all write inside the ring if and only if there are at most txqueue_n of them.
   */
  lemma PeriodAsWritten(txqueue_n: nat, m: nat)
    ensures (forall j: nat :: j < m ==> TailAfter(j, txqueue_n) < txqueue_n) <==> m <= txqueue_n
  {
    forall j: nat | j <= txqueue_n
      ensures TailAfter(j, txqueue_n) == j
    {
      TailCounts(j, txqueue_n);
      ModUnique(j, txqueue_n + 1, 0, j);
    }
    assert m > txqueue_n ==> TailAfter(txqueue_n, txqueue_n) == txqueue_n;
  }

  /** The card is on the ring, and what it has completed is what was sent, in order. */
  predicate InOrder(r: Ring) {
    r.tdh < |r.slots| && r.completed <= r.sent
  }

  /** Some interleaving leads from the initial ring to r. */
  ghost predicate Reachable(n: nat, card: nat, r: Ring) {
    exists es :: AllEnabled(InitialRing(n, card), es) && Run(InitialRing(n, card), es) == r
  }

  lemma {:induction false} RunConcat(r: Ring, es: seq<Event>, e: Event)
    requires AllEnabled(r, es) && AllEnabled(Run(r, es), [e])
    ensures AllEnabled(r, es + [e]) && Run(r, es + [e]) == Step(Run(r, es), e)
    decreases |es|
  {
    if es == [] {
      assert es + [e] == [e] && [e][1..] == [];
    } else {
      assert (es + [e])[0] == es[0] && (es + [e])[1..] == es[1..] + [e];
      RunConcat(Step(r, es[0]), es[1..], e);
    }
  }

  lemma ReachStep(n: nat, card: nat, r: Ring, e: Event)
    requires Reachable(n, card, r) && Enabled(r, e) && r.tail < |r.slots| && r.tdh < |r.slots|
    ensures Reachable(n, card, Step(r, e))
  {
    var es :| AllEnabled(InitialRing(n, card), es) && Run(InitialRing(n, card), es) == r;
    RunConcat(InitialRing(n, card), es, e);
  }

  /** Nothing is in flight, both sides are at slot k, and it and all behind it are fresh. */
  predicate Idle(n: nat, card: nat, r: Ring, k: nat) {
    && |r.slots| == n && r.card == card && r.stage.Outside? && r.tail == r.tdt == r.tdh == k < n
    && |r.sent| == |r.completed| == k
    && forall j :: k <= j < n ==> r.slots[j] == EMPTY
  }

  /** A call that returns and its completion, on lengths that need not agree. */
  lemma Round(n: nat, card: nat, r: Ring, k: nat) returns (r': Ring)
    requires n > 1 && Reachable(n, card, r) && Idle(n, card, r, k)
    ensures Reachable(n, card, r') && |r'.slots| == n && r'.card == card && r'.stage.Outside?
    ensures r'.tail == r'.tdt == Advance(k, n - 1) && r'.tdh == Advance(k, card - 1)
    ensures |r'.sent| == |r'.completed| == k + 1
    ensures forall j :: k < j < n ==> r'.slots[j] == EMPTY
  {
    hide Reachable;
    var r1 := Step(r, Call(1, 0, true));
    var r2 := Step(r1, Poll);
    var r3 := Step(r2, Fill);
    var r4 := Step(r3, Publish);
    ReachStep(n, card, r, Call(1, 0, true));
    ReachStep(n, card, r1, Poll);
    ReachStep(n, card, r2, Fill);
    ReachStep(n, card, r3, Publish);
    ReachStep(n, card, r4, Complete);
    r' := Step(r4, Complete);
  }

  /** Both sides keep step up to the end of the shorter ring. */
  lemma {:induction false} IdleReachable(n: nat, card: nat, k: nat) returns (r: Ring)
    requires n > 1 && k < n && k < card
    ensures Reachable(n, card, r) && Idle(n, card, r, k)
  {
    hide Reachable;
    if k == 0 {
      r := InitialRing(n, card);
      assert Reachable(n, card, r) by {
        StartReachable(n, card);
      }
    } else {
      var before := IdleReachable(n, card, k - 1);
      r := Round(n, card, before, k - 1);
    }
  }

  lemma StartReachable(n: nat, card: nat)
    ensures Reachable(n, card, InitialRing(n, card))
  {
    assert AllEnabled(InitialRing(n, card), []) && Run(InitialRing(n, card), []) == InitialRing(n, card);
  }

  /**
   * When the lengths differ there is a run out of order: a shorter card starts over and completes a
   * descriptor twice, a longer one runs past the driver's ring.
   */
  lemma OutOfOrder(n: nat, card: nat) returns (r: Ring)
    requires n > 1 && card > 0 && card != n
    ensures Reachable(n, card, r) && !InOrder(r)
    ensures if card < n then |r.completed| > |r.sent| else r.tdh == |r.slots|
  {
    hide Reachable;
    if card < n {
      var idle := IdleReachable(n, card, card - 1);
      var ahead := Round(n, card, idle, card - 1);
      ReachStep(n, card, ahead, Complete);
      r := Step(ahead, Complete);
    } else {
      var idle := IdleReachable(n, card, n - 1);
      r := Round(n, card, idle, n - 1);
    }
  }

  /** With a single slot the tail never leaves the head, so the card never sees work. */
  predicate OneSlot(r: Ring) {
    |r.slots| == 1 && r.tail == r.tdt == r.tdh == 0 && r.completed == []
  }

  lemma {:induction false} OneSlotRuns(r: Ring, es: seq<Event>)
    requires OneSlot(r) && AllEnabled(r, es)
    ensures OneSlot(Run(r, es))
    decreases |es|
  {
    if es != [] {
      OneSlotRuns(Step(r, es[0]), es[1..]);
    }
  }

  lemma SamePeriodInOrder(n: nat, card: nat, r: Ring)
    requires n > 0 && (n == 1 || card == n) && Reachable(n, card, r)
    ensures InOrder(r)
  {
    var es :| AllEnabled(InitialRing(n, card), es) && Run(InitialRing(n, card), es) == r;
    if n == 1 {
      OneSlotRuns(InitialRing(n, card), es);
    } else {
      InitialOK(n);
      RunOK(InitialRing(n, card), es);
    }
  }

  /** Descriptors complete in order, and the card stays on the ring, in every run if and only if the two lengths agree. */
  lemma InOrderIffSamePeriod(n: nat, card: nat)
    requires n > 0 && card > 0
    ensures (forall r :: Reachable(n, card, r) ==> InOrder(r)) <==> n == 1 || card == n
  {
    hide Reachable, InOrder;
    if n == 1 || card == n {
      forall r | Reachable(n, card, r)
        ensures InOrder(r)
      {
        SamePeriodInOrder(n, card, r);
      }
    } else {
      var r := OutOfOrder(n, card);
    }
  }

  /** The card is given 2 txqueue_n bytes, an eighth of txqueue_n descriptors; the driver wraps after txqueue_n + 1. */
  lemma LengthsAsWritten(txqueue_n: nat) returns (r: Ring)
    requires txqueue_n * 2 / 16 > 0
    ensures Reachable(txqueue_n + 1, txqueue_n * 2 / 16, r) && |r.completed| > |r.sent|
  {
    r := OutOfOrder(txqueue_n + 1, txqueue_n * 2 / 16);
  }

  // ---------------------------------------------------------------------------
  // The driver and the card as code
  // ---------------------------------------------------------------------------

  /** A call of add_tx_buffer that gets past the busy-wait, as the driver's four steps. */
  function Submitted(r: Ring, buffer: nat, len: nat, eop: bool): Ring
    requires r.stage.Outside? && buffer != 0 && r.tail < |r.slots| && r.tdh < |r.slots| && !Busy(r.slots[r.tail])
  {
    Step(Step(Step(Step(r, Call(buffer, len, eop)), Poll), Fill), Publish)
  }

  /** A ring with the driver outside its last step: the tail is the slot of the next submission. */
  lemma RingBounds(r: Ring)
    requires RingOK(r)
    ensures |r.slots| > 0 && r.tail < |r.slots| && r.tdh < |r.slots| && r.tail == r.tdt
    ensures !r.stage.Filled? ==> r.tail == |r.sent| % |r.slots|
  {
  }

  /** Such a call appends one submission, in the slot of its number, and moves the card's tail just past it. */
  lemma SubmittedOK(r: Ring, buffer: nat, len: nat, eop: bool)
    requires RingOK(r) && r.stage.Outside? && buffer != 0 && !Busy(r.slots[r.tail])
    ensures var r', n := Submitted(r, buffer, len, eop), |r.slots|;
      && RingOK(r')
      && r' == Ring(r.slots[|r.sent| % n := NewDesc(buffer, len, eop)], (|r.sent| + 1) % n, Outside, r.card,
                    (|r.sent| + 1) % n, r.tdh, r.sent + [NewDesc(buffer, len, eop)], r.completed)
  {
    hide RingOK, NewDesc, Advance, SlotOf;
    RingBounds(r);
    var r1 := Step(r, Call(buffer, len, eop));
    var r2 := Step(r1, Poll);
    var r3 := Step(r2, Fill);
    StepOK(r, Call(buffer, len, eop));
    StepOK(r1, Poll);
    StepOK(r2, Fill);
    StepOK(r3, Publish);
    RingBounds(Step(r3, Publish));
  }

  /** The descriptor ring in memory, the driver's txtail, and the card's TDT and TDH. */
  class TransmitQueue {
    const txqueue: array<Desc>
    var txtail: nat
    var tdt: nat
    var tdh: nat
    const tdlen: nat   // the card's ring length, in descriptors
    ghost var sent: seq<Desc>
    ghost var completed: seq<Desc>

    ghost function Contents(): Ring
      reads this, txqueue
    {
      Ring(txqueue[..], txtail, Outside, tdlen, tdt, tdh, sent, completed)
    }

    ghost predicate Valid()
      reads this, txqueue
    {
      RingOK(Contents())
    }

    /** All slots zeroed, nothing submitted: what the kcalloc in the driver's start-up leaves. */
    constructor (n: nat)
      requires n > 0
      ensures Valid() && Contents() == InitialRing(n, n) && fresh(txqueue)
    {
      txqueue := new Desc[n](_ => EMPTY);
      txtail, tdt, tdh, tdlen := 0, 0, 0, n;
      sent, completed := [], [];
      new;
      assert txqueue[..] == InitialRing(n, n).slots;
      InitialOK(n);
    }

    /**
     * add_tx_buffer, for the calls that return: by FullRingIsStuck the busy-wait ends at once or
     * never, and it ends exactly when the ring is not full. `buffer` is the physical address.
     */
    method AddTxBuffer(buffer: nat, len: nat, eop: bool)
      requires Valid() && buffer != 0
      requires |sent| - |completed| < txqueue.Length
      modifies this`txtail, this`tdt, this`sent, txqueue
      ensures Valid()
      ensures !Busy(old(Contents()).slots[old(txtail)])
      ensures Contents() == Submitted(old(Contents()), buffer, len, eop)
      ensures |sent| == |old(sent)| + 1 && Describes(sent[|sent| - 1], buffer, len, eop)
      ensures old(txtail) < txqueue.Length && txqueue[old(txtail)] == sent[|sent| - 1]
    {
      hide RingOK, Submitted, Step, Busy, SlotOf;
      ghost var r := Contents();
      RingBounds(r);
      TailBusyIffFull(r);
      SubmittedOK(r, buffer, len, eop);
      NextSlot(txqueue.Length, |sent|);
      NewDescDescribes(buffer, len, eop);
      var cmd: bv8 := 1 << 3;
      if eop {
        cmd := cmd | (1 << 1);
        cmd := cmd | (1 << 0);
      }
      txqueue[txtail] := Desc(buffer, len * 2 % 0x1_0000, cmd, false);
      sent := sent + [txqueue[txtail]];
      txtail := txtail + 1;
      if txtail > txqueue.Length - 1 {
        txtail := 0;
      }
      tdt := txtail;
      assert cmd == NewDesc(buffer, len, eop).cmd;
      assert txqueue[..] == r.slots[r.tail := NewDesc(buffer, len, eop)];
      assert Contents() == Submitted(r, buffer, len, eop);
    }

    /** The card reports the descriptor at its head as done and moves on. */
    method CompleteOne()
      requires Valid() && tdh != tdt
      modifies this`tdh, this`completed, txqueue
      ensures Valid() && Contents() == Step(old(Contents()), Complete)
    {
      CompleteOK(Contents());
      completed := completed + [txqueue[tdh]];
      txqueue[tdh] := txqueue[tdh].(done := true);
      tdh := if tdh + 1 > tdlen - 1 then 0 else tdh + 1;
    }
  }
}
