/**
  Runs of the ring, and what they look like from outside: a first-in first-out queue.
 */
module QueueFifo {
  import opened Arithmetic
  import opened Options
  import opened QueueSteps

  datatype Act = Act(tid: nat, action: Action)

  /** Executes a schedule; None when it asks for an action that is not enabled. */
  function Execute(s: State, acts: seq<Act>): (r: Option<State>)
    requires Inv(s)
    ensures r.Some? ==> Inv(r.value)
    decreases |acts|
  {
    if acts == [] then Some(s)
    else if !Enabled(s, acts[0].tid, acts[0].action) then None
    else
      StepInv(s, acts[0].tid, acts[0].action);
      Execute(Next(s, acts[0].tid, acts[0].action), acts[1..])
  }

  // ---------------------------------------------------------------- the abstract queue

  /** What an observer sees. */
  datatype Event =
    | Put(index: nat, msg: Message)     // a producer wins index
    | Get(range: QueueRange)            // a consumer wins a range
    | See(index: nat, msg: Message)     // a client reads the slot of a dequeued index
    | Silent

  datatype Fifo = Fifo(taken: seq<Message>, pending: seq<Message>)

  /** One event of a FIFO; None when it is not one a FIFO could show. */
  function FifoStep(f: Fifo, e: Event): Option<Fifo> {
    match e
    case Put(k, m) => if k == |f.taken| + |f.pending| then Some(Fifo(f.taken, f.pending + [m])) else None
    case Get(r) =>
      if r.head == |f.taken| && r.head <= r.tail <= r.head + |f.pending| then
        var n := r.tail - r.head;
        Some(Fifo(f.taken + f.pending[..n], f.pending[n..]))
      else None
    case See(k, m) => if k < |f.taken| && f.taken[k] == m then Some(f) else None
    case Silent => Some(f)
  }

  function Replay(f: Fifo, events: seq<Event>): Option<Fifo>
    decreases |events|
  {
    if events == [] then Some(f)
    else
      match FifoStep(f, events[0])
      case None => None
      case Some(f') => Replay(f', events[1..])
  }

  function EventOf(s: State, t: nat, a: Action): Event
    requires Inv(s) && Enabled(s, t, a)
  {
    match a
    case Start(_) => Silent
    case Read(k) => See(k, s.slots[k % s.size])
    case Advance =>
      match s.threads[t]
      case InEnqueue(EnqCas(_, m, q)) => if s.locked == q then Put(q.tail, m) else Silent
      case InDequeue(DeqCas(_, num, q)) =>
        if s.safe == q then Get(QueueRange(q.head, q.head + num)) else Silent
      case _ => Silent
  }

  function Trace(s: State, acts: seq<Act>): seq<Event>
    requires Inv(s) && Execute(s, acts).Some?
    decreases |acts|
  {
    if acts == [] then []
    else
      StepInv(s, acts[0].tid, acts[0].action);
      [EventOf(s, acts[0].tid, acts[0].action)] + Trace(Next(s, acts[0].tid, acts[0].action), acts[1..])
  }

  /** The FIFO a state of the ring stands for: reservations split at `safe.head`. */
  function Abstract(s: State): Fifo
    requires Ordered(s)
  {
    Fifo(s.log[..s.safe.head], s.log[s.safe.head..])
  }

  /** Each step of the ring is the step of the FIFO that its event names. */
  lemma StepRefines(s: State, t: nat, a: Action)
    requires Inv(s) && Enabled(s, t, a)
    ensures Inv(Next(s, t, a))
    ensures FifoStep(Abstract(s), EventOf(s, t, a)) == Some(Abstract(Next(s, t, a)))
  {
    StepInv(s, t, a);
    assert ThreadOk(s, t);
    var s' := Next(s, t, a);
    match EventOf(s, t, a)
    case Silent => SilentKeeps(s, t, a);
    case Put(k, m) =>
      assert s'.log == s.log + [m] && s'.safe == s.safe;
      assert Abstract(s') == Fifo(Abstract(s).taken, Abstract(s).pending + [m]);
    case Get(r) =>
      var n := r.tail - r.head;
      assert s'.log == s.log && s'.safe.head == r.tail && s.safe.head == r.head;
      assert s'.log[..r.tail] == s.log[..r.head] + s.log[r.head..][..n];
      assert s'.log[r.tail..] == s.log[r.head..][n..];
    case See(k, m) =>
      assert PhaseOk(s, k) && SlotOk(s, k);
  }

  lemma SilentKeeps(s: State, t: nat, a: Action)
    requires Inv(s) && Enabled(s, t, a) && EventOf(s, t, a) == Silent
    ensures Next(s, t, a).log == s.log && Next(s, t, a).safe.head == s.safe.head
  {
    assert ThreadOk(s, t);
  }

  /** Every run of the ring, seen from outside, is a run of the FIFO. */
  lemma {:induction false} RunRefines(s: State, acts: seq<Act>)
    requires Inv(s) && Execute(s, acts).Some?
    ensures Replay(Abstract(s), Trace(s, acts)) == Some(Abstract(Execute(s, acts).value))
    decreases |acts|
  {
    if acts != [] {
      var a := acts[0];
      StepRefines(s, a.tid, a.action);
      RunRefines(Next(s, a.tid, a.action), acts[1..]);
      assert Trace(s, acts)[1..] == Trace(Next(s, a.tid, a.action), acts[1..]);
    }
  }

  // ---------------------------------------------------------------- what a FIFO's events say

  /** The messages put, in order. */
  function Puts(events: seq<Event>): seq<Message> {
    if events == [] then []
    else
      var last := events[|events| - 1];
      Puts(events[..|events| - 1]) + if last.Put? then [last.msg] else []
  }

  /** How many messages were taken. */
  function Gets(events: seq<Event>): int {
    if events == [] then 0
    else
      var last := events[|events| - 1];
      Gets(events[..|events| - 1]) + if last.Get? then last.range.tail - last.range.head else 0
  }

  /** Puts are numbered without gaps, ranges taken follow one another, and a read of index k sees the k-th put. */
  predicate InOrder(events: seq<Event>, i: nat)
    requires i < |events|
  {
    var before := events[..i];
    match events[i]
    case Put(k, _) => k == |Puts(before)|
    case Get(r) => Gets(before) == r.head <= r.tail <= |Puts(before)|
    case See(k, m) => k < Gets(before) <= |Puts(before)| && m == Puts(before)[k]
    case Silent => true
  }

  lemma {:induction false} ReplaySnoc(f: Fifo, events: seq<Event>, e: Event)
    ensures Replay(f, events).None? ==> Replay(f, events + [e]).None?
    ensures Replay(f, events).Some? ==> Replay(f, events + [e]) == FifoStep(Replay(f, events).value, e)
    decreases |events|
  {
    var all := events + [e];
    if events == [] {
      assert all[1..] == [];
    } else {
      assert all[0] == events[0] && all[1..] == events[1..] + [e];
      match FifoStep(f, events[0])
      case None =>
      case Some(f') => ReplaySnoc(f', events[1..], e);
    }
  }

  lemma {:induction false} ReplayInOrder(events: seq<Event>)
    requires Replay(Fifo([], []), events).Some?
    ensures var f := Replay(Fifo([], []), events).value;
      f.taken + f.pending == Puts(events) && |f.taken| == Gets(events)
    ensures forall i: nat :: i < |events| ==> InOrder(events, i)
    decreases |events|
  {
    if events != [] {
      var n := |events| - 1;
      var init, last := events[..n], events[n];
      assert events == init + [last];
      ReplaySnoc(Fifo([], []), init, last);
      ReplayInOrder(init);
      var f := Replay(Fifo([], []), init).value;
      forall i: nat | i < |events| ensures InOrder(events, i) {
        assert events[..i] == init[..i];
        if i < n { assert InOrder(init, i); }
      }
    }
  }

  /**
    The main theorem.  In every run of any number of threads over a fresh ring: reservations are
    numbered in the order of their CAS, the ranges consumers win are consecutive and disjoint,
    and whoever reads index k of a dequeued range sees the message of the k-th reservation.
   */
  lemma RingIsFifo(size: nat, numThreads: nat, acts: seq<Act>)
    requires size > 0 && Execute(Init(size, numThreads), acts).Some?
    ensures var s := Execute(Init(size, numThreads), acts).value;
      var events := Trace(Init(size, numThreads), acts);
      && Puts(events) == s.log
      && Gets(events) == s.safe.head
      && forall i: nat :: i < |events| ==> InOrder(events, i)
  {
    var s0 := Init(size, numThreads);
    RunRefines(s0, acts);
    assert Abstract(s0) == Fifo([], []);
    ReplayInOrder(Trace(s0, acts));
    var s := Execute(s0, acts).value;
    assert s.log[..s.safe.head] + s.log[s.safe.head..] == s.log;
  }

  // ---------------------------------------------------------------- the slots over a run

  /** History only grows, and only a release that covers a dequeued index ends its being held. */
  lemma StepHistory(s: State, t: nat, a: Action, k: nat)
    requires Inv(s) && Enabled(s, t, a) && k < |s.phase|
    ensures Next(s, t, a).size == s.size && s.log <= Next(s, t, a).log
    ensures |Next(s, t, a).phase| == |Next(s, t, a).log|
    ensures s.phase[k] == Held && Next(s, t, a).phase[k] != Held ==>
      a.Start? && a.call.Release? && a.call.range.head <= k < a.call.range.tail
    ensures s.phase[k] != Held && Next(s, t, a).phase[k] == Held ==>
      s.phase[k] == Published && s.safe.head <= k < Next(s, t, a).safe.head
  {
    StepInv(s, t, a);
    assert ThreadOk(s, t) && PhaseOk(s, k);
  }

  /** No action starts a release of index `k`. */
  predicate NoRelease(acts: seq<Act>, k: nat) {
    forall i :: 0 <= i < |acts| && acts[i].action.Start? && acts[i].action.call.Release? ==>
      !(acts[i].action.call.range.head <= k < acts[i].action.call.range.tail)
  }

  /** A dequeued index stays dequeued as long as nobody starts to release it. */
  lemma {:induction false} StaysHeld(s: State, acts: seq<Act>, k: nat)
    requires Inv(s) && Execute(s, acts).Some? && k < |s.phase| && s.phase[k] == Held && NoRelease(acts, k)
    ensures k < |Execute(s, acts).value.phase| && Execute(s, acts).value.phase[k] == Held
    decreases |acts|
  {
    if acts != [] {
      var t, a := acts[0].tid, acts[0].action;
      StepHistory(s, t, a, k);
      StepInv(s, t, a);
      StaysHeld(Next(s, t, a), acts[1..], k);
    }
  }

  /**
    A dequeued index keeps its message until somebody starts to release it: whatever runs in
    between, its slot is not overwritten and garbage collection does not pass it.  As every prefix
    of a run is a run, that holds at each of its points.
   */
  lemma HeldSlotStable(s: State, acts: seq<Act>, k: nat)
    requires Inv(s) && Execute(s, acts).Some?
    requires k < |s.phase| && s.phase[k] == Held && NoRelease(acts, k)
    ensures var s' := Execute(s, acts).value;
      && s'.size == s.size && s.log <= s'.log
      && s.slots[k % s.size] == s.log[k]
      && s'.slots[k % s.size] == s.slots[k % s.size] && s'.locked.head <= k < s'.safe.head
  {
    assert PhaseOk(s, k) && SlotOk(s, k);
    RunHistory(s, acts);
    StaysHeld(s, acts, k);
    var s' := Execute(s, acts).value;
    assert PhaseOk(s', k) && SlotOk(s', k);
  }

  lemma {:induction false} RunHistory(s: State, acts: seq<Act>)
    requires Inv(s) && Execute(s, acts).Some?
    ensures Execute(s, acts).value.size == s.size && s.log <= Execute(s, acts).value.log
    decreases |acts|
  {
    if acts != [] {
      var a := acts[0];
      StepInv(s, a.tid, a.action);
      assert ThreadOk(s, a.tid);
      assert s.log <= Next(s, a.tid, a.action).log;
      RunHistory(Next(s, a.tid, a.action), acts[1..]);
    }
  }

  /** In every reachable state the two ranges are nested and a slot outside the locked range is free. */
  lemma SlotsOutsideFree(s: State, j: nat)
    requires Inv(s) && j < s.size
    requires forall k: nat :: s.locked.head <= k < s.locked.tail ==> k % s.size != j
    ensures s.locked.head <= s.safe.head <= s.safe.tail <= s.locked.tail <= s.locked.head + s.size
    ensures s.slots[j].word == 0
  {
    var k := WindowIndex(s.locked.head, s.size, j);
    assert SlotOk(s, k);
  }

  lemma WindowIndex(head: nat, size: nat, j: nat) returns (k: nat)
    requires j < size
    ensures head <= k < head + size && k % size == j
  {
    k := head;
    while k % size != j
      invariant head <= k < head + size
      invariant forall i :: head <= i < k ==> i % size != j
      decreases head + size - k
    {
      if k + 1 == head + size {
        AllResidues(head, size, j);
      }
      k := k + 1;
    }
  }

  lemma AllResidues(head: nat, size: nat, j: nat)
    requires j < size
    ensures exists i :: head <= i < head + size && i % size == j
  {
    var r := head % size;
    var i := if j >= r then head + (j - r) else head + (j - r) + size;
    var q := head / size;
    assert i == size * (if j >= r then q else q + 1) + j;
    Residue(if j >= r then q else q + 1, size, j);
  }

  // ---------------------------------------------------------------- quiescence

  /** When no call is running, everything reserved is published and everything dequeued is held or released. */
  lemma QuiescentPhases(s: State, k: nat)
    requires Inv(s) && k < |s.phase|
    requires forall t :: 0 <= t < |s.threads| ==> s.threads[t].Idle?
    ensures s.safe.head <= k ==> s.phase[k] == Published && s.slots[k % s.size] == s.log[k]
    ensures s.locked.head <= k < s.safe.head ==> s.phase[k] == Held || s.phase[k] == Released
    ensures s.safeTailMtx == Free && s.lockedHeadMtx == Free
  {
    assert PhaseOk(s, k);
    if s.locked.head <= k { assert SlotOk(s, k); }
  }

  /** A producer is turned away when the ring is full, but also when it loses its tenth race. */
  lemma EnqueueFailsIff(s: State, t: nat)
    requires Inv(s) && Enabled(s, t, Advance) && s.threads[t].InEnqueue?
    ensures Next(s, t, Advance).threads[t] == Idle(Index(-1)) <==>
      || (s.threads[t].enq.EnqSnapshot? && s.locked.tail - s.locked.head == s.size)
      || (s.threads[t].enq.EnqCas? && s.threads[t].enq.tries + 1 >= MAX_RACE_TRIES && s.locked != s.threads[t].enq.snap)
  {
    assert ThreadOk(s, t);
  }

  // ---------------------------------------------------------------- 16-bit counters

  /** The length enqueue computes: two 16-bit counters promoted to int, subtracted, stored in a uint. */
  function LengthOf(head: nat, tail: nat): int {
    (tail % 0x1_0000 - head % 0x1_0000) % 0x1_0000_0000
  }

  /**
    The counters are meant to wrap, but the computed length is the true one only while both
    counters have wrapped equally often; once only the tail has, enqueue finds the ring full.
   */
  lemma LengthExactIff(head: nat, tail: nat, size: nat)
    requires head <= tail <= head + size && size < 0x1_0000
    ensures LengthOf(head, tail) == tail - head <==> head / 0x1_0000 == tail / 0x1_0000
    ensures head / 0x1_0000 != tail / 0x1_0000 ==> LengthOf(head, tail) + 1 > size
  {
  }

  /** The number that dequeue takes from a range it read, `num` being asked for. */
  function ClampedNum(head: nat, tail: nat, num: nat): int {
    if num > LengthOf(head, tail) then LengthOf(head, tail) else num
  }

  /**
    Dequeue takes no more messages than there are exactly while both counters have wrapped equally
    often or no more are asked for; otherwise it takes as many as asked for, up to nearly 2^32.
   */
  lemma DequeueClampIff(head: nat, tail: nat, num: nat)
    requires head <= tail < head + 0x1_0000
    ensures ClampedNum(head, tail, num) <= tail - head <==> head / 0x1_0000 == tail / 0x1_0000 || num <= tail - head
    ensures ClampedNum(head, tail, num) > tail - head && num <= 0xFFFF_0000 ==> ClampedNum(head, tail, num) == num
  {
  }

  /** Ten of eight messages. */
  lemma DequeueTakesTooMany()
    ensures 65538 - 65530 == 8 && ClampedNum(65530, 65538, 10) == 10
  {
  }

  /** The turns of the loops of gather_new_data, release and garbage_collect over a range of 16-bit counters. */
  function LoopTurns(head: nat, tail: nat): nat {
    if tail % 0x1_0000 > head % 0x1_0000 then tail % 0x1_0000 - head % 0x1_0000 else 0
  }

  /** They go over the whole range while both counters have wrapped equally often, and else over none of it. */
  lemma LoopTurnsExactIff(head: nat, tail: nat)
    requires head <= tail < head + 0x1_0000
    ensures LoopTurns(head, tail) == tail - head <==> head / 0x1_0000 == tail / 0x1_0000
    ensures head / 0x1_0000 != tail / 0x1_0000 ==> LoopTurns(head, tail) == 0
  {
  }
}
