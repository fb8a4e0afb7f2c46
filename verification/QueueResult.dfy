/**
  What a whole call of the ring did and returned (src/include/std/queue.h:119-244), over runs in
  which other threads do what they like between any two of its accesses.
 */
module QueueResults {
  import opened Options
  import opened QueueSteps
  import opened QueueFifo
  import opened QueueFailures

  function Whole(t: nat, call: Call, acts: seq<Act>): (r: seq<Act>)
    ensures |r| == |acts| + 1 && r[0] == Act(t, Start(call)) && r[1..] == acts
  {
    [Act(t, Start(call))] + acts
  }

  /** In `s` thread `t` enters `call`, all of `acts` runs, and by then the call has returned `result`. */
  ghost predicate Returns(s: State, t: nat, call: Call, acts: seq<Act>, result: Result) {
    && Inv(s) && OneCall(acts, t) && Execute(s, Whole(t, call, acts)).Some?
    && var end := Execute(s, Whole(t, call, acts)).value;
       t < |end.threads| && end.threads[t] == Idle(result)
  }

  /** The visible events that are steps of thread `t`. */
  function By(acts: seq<Act>, events: seq<Event>, t: nat): seq<Event>
    decreases |acts|
  {
    if acts == [] || events == [] then []
    else (if acts[0].tid == t && events[0] != Silent then [events[0]] else []) + By(acts[1..], events[1..], t)
  }

  /** How often thread `t` acts. */
  function Accesses(acts: seq<Act>, t: nat): nat
    decreases |acts|
  {
    if acts == [] then 0 else (if acts[0].tid == t then 1 else 0) + Accesses(acts[1..], t)
  }

  /** The first step of a run, and what it adds to the events of `t`. */
  lemma FirstStep(s: State, acts: seq<Act>, t: nat)
    requires Inv(s) && acts != [] && Execute(s, acts).Some? && t < |s.threads|
    ensures var u, a, rest := acts[0].tid, acts[0].action, acts[1..];
      && Enabled(s, u, a) && Inv(Next(s, u, a))
      && Execute(s, acts) == Execute(Next(s, u, a), rest)
      && t < |Next(s, u, a).threads| && (t != u ==> Next(s, u, a).threads[t] == s.threads[t])
      && By(acts, Trace(s, acts), t) ==
        (if u == t && EventOf(s, u, a) != Silent then [EventOf(s, u, a)] else [])
        + By(rest, Trace(Next(s, u, a), rest), t)
      && Accesses(acts, t) == (if u == t then 1 else 0) + Accesses(rest, t)
      && (OneCall(acts, t) ==> OneCall(rest, t) && (u == t ==> a == Advance))
  {
    StepInv(s, acts[0].tid, acts[0].action);
    SameThreads(s, acts[0].tid, acts[0].action);
    var tail := Trace(Next(s, acts[0].tid, acts[0].action), acts[1..]);
    assert Trace(s, acts) == [EventOf(s, acts[0].tid, acts[0].action)] + tail;
    assert Trace(s, acts)[1..] == tail;
  }

  /** A thread outside calls that starts none does nothing. */
  lemma {:induction false} StaysIdle(s: State, acts: seq<Act>, t: nat)
    requires Inv(s) && Execute(s, acts).Some? && t < |s.threads| && OneCall(acts, t) && s.threads[t].Idle?
    ensures t < |Execute(s, acts).value.threads| && Execute(s, acts).value.threads[t] == s.threads[t]
    ensures By(acts, Trace(s, acts), t) == [] && Accesses(acts, t) == 0
    decreases |acts|
  {
    if acts != [] {
      FirstStep(s, acts, t);
      StaysIdle(Next(s, acts[0].tid, acts[0].action), acts[1..], t);
    }
  }

  // ---------------------------------------------------------------- enqueue

  predicate Seeking(pc: Pc, msg: Message) {
    pc.InEnqueue? && !pc.enq.EnqStore? && pc.enq.msg == msg && pc.enq.tries < MAX_RACE_TRIES
  }

  /** The accesses a call of enqueue has left at most. */
  function EnqueueLeft(pc: Pc): nat {
    match pc
    case InEnqueue(EnqSnapshot(i, _)) => if i < MAX_RACE_TRIES then 2 * (MAX_RACE_TRIES - i) + 1 else 0
    case InEnqueue(EnqCas(i, _, _)) => if i < MAX_RACE_TRIES then 2 * (MAX_RACE_TRIES - i) else 0
    case InEnqueue(EnqStore(_, _)) => 1
    case _ => 0
  }

  /** One access of a call that has no index yet. */
  lemma SeekingStep(s: State, t: nat, msg: Message)
    requires Inv(s) && Enabled(s, t, Advance) && Seeking(s.threads[t], msg)
    ensures var s', e := Next(s, t, Advance), EventOf(s, t, Advance);
      && t < |s'.threads| && EnqueueLeft(s'.threads[t]) + 1 <= EnqueueLeft(s.threads[t])
      && (|| (e == Silent && (Seeking(s'.threads[t], msg) || s'.threads[t] == Idle(Index(-1))))
          || (e == Put(|s.log|, msg) && s'.log == s.log + [msg]
              && s'.threads[t] == InEnqueue(EnqStore(msg, |s.log|))))
  {
    assert ThreadOk(s, t);
  }

  lemma {:induction false} EnqueueStores(s: State, acts: seq<Act>, t: nat, msg: Message, k: nat)
    requires Inv(s) && Execute(s, acts).Some? && t < |s.threads| && OneCall(acts, t)
    requires s.threads[t] == InEnqueue(EnqStore(msg, k)) && k < |s.log| && s.log[k] == msg
    ensures Accesses(acts, t) <= 1
    ensures var end := Execute(s, acts).value;
      && k < |end.log| && end.log[k] == msg && t < |end.threads|
      && (end.threads[t].Idle? ==> By(acts, Trace(s, acts), t) == [] && end.threads[t] == Idle(Index(k)))
    decreases |acts|
  {
    if acts != [] {
      var u, a := acts[0].tid, acts[0].action;
      FirstStep(s, acts, t);
      assert ThreadOk(s, u);
      RunHistory(s, acts);
      if u == t { StaysIdle(Next(s, u, a), acts[1..], t); } else { EnqueueStores(Next(s, u, a), acts[1..], t, msg, k); }
    }
  }

  lemma {:induction false} EnqueueSeeks(s: State, acts: seq<Act>, t: nat, msg: Message)
    requires Inv(s) && Execute(s, acts).Some? && t < |s.threads| && OneCall(acts, t) && Seeking(s.threads[t], msg)
    ensures Accesses(acts, t) <= EnqueueLeft(s.threads[t])
    ensures var end, mine := Execute(s, acts).value, By(acts, Trace(s, acts), t);
      && t < |end.threads|
      && (end.threads[t].Idle? ==>
        || (end.threads[t] == Idle(Index(-1)) && mine == [])
        || exists k: nat :: end.threads[t] == Idle(Index(k)) && mine == [Put(k, msg)]
                            && k < |end.log| && end.log[k] == msg)
    decreases |acts|
  {
    if acts != [] {
      var u, a, rest := acts[0].tid, acts[0].action, acts[1..];
      FirstStep(s, acts, t);
      var s' := Next(s, u, a);
      if u != t {
        EnqueueSeeks(s', rest, t, msg);
      } else {
        SeekingStep(s, t, msg);
        if Seeking(s'.threads[t], msg) { EnqueueSeeks(s', rest, t, msg); }
        else if s'.threads[t].Idle? { StaysIdle(s', rest, t); }
        else { EnqueueStores(s', rest, t, msg, |s.log|); }
      }
    }
  }

  /**
    Whatever the other threads do, a call of enqueue that returns k >= 0 reserved index k, for its
    own message, and nothing else; one that returns -1 reserved nothing; it returns nothing else.
   */
  lemma EnqueueReturns(s: State, t: nat, msg: Message, acts: seq<Act>, r: Result)
    requires Returns(s, t, Enqueue(msg), acts, r)
    ensures var all := Whole(t, Enqueue(msg), acts);
      var mine, log := By(all, Trace(s, all), t), Execute(s, all).value.log;
      && r.Index?
      && (r.index < 0 ==> r.index == -1 && mine == [])
      && (r.index >= 0 ==> mine == [Put(r.index, msg)] && r.index < |log| && log[r.index] == msg)
  {
    var all := Whole(t, Enqueue(msg), acts);
    FirstStep(s, all, t);
    EnqueueSeeks(Next(s, t, Start(Enqueue(msg))), acts, t, msg);
  }

  /** However the others interfere, a call of enqueue makes at most 2 * MAX_RACE_TRIES + 1 accesses. */
  lemma EnqueueWaitFree(s: State, t: nat, msg: Message, acts: seq<Act>)
    requires Inv(s) && OneCall(acts, t) && Execute(s, Whole(t, Enqueue(msg), acts)).Some?
    ensures Accesses(acts, t) <= 2 * MAX_RACE_TRIES + 1
  {
    FirstStep(s, Whole(t, Enqueue(msg), acts), t);
    EnqueueSeeks(Next(s, t, Start(Enqueue(msg))), acts, t, msg);
  }

  // ---------------------------------------------------------------- dequeue

  /** The access of dequeue at which it reads the safe range: its first, and each lost CAS. */
  predicate Looks(s: State, t: nat, a: Action)
    requires t < |s.threads|
  {
    && a == Advance && s.threads[t].InDequeue?
    && (s.threads[t].deq.DeqCas? ==> s.safe != s.threads[t].deq.snap)
  }

  /** At one of its looks `t` finds exactly `n` messages to take. */
  ghost predicate Finds(s: State, acts: seq<Act>, t: nat, n: nat)
    requires Inv(s) && Execute(s, acts).Some?
    decreases |acts|
  {
    && acts != []
    && (StepInv(s, acts[0].tid, acts[0].action);
        || (acts[0].tid == t && Looks(s, t, acts[0].action) && s.safe.tail - s.safe.head == n)
        || Finds(Next(s, acts[0].tid, acts[0].action), acts[1..], t, n))
  }

  /** How often threads other than `t` change the safe range. */
  ghost function OthersMove(s: State, acts: seq<Act>, t: nat): nat
    requires Inv(s) && Execute(s, acts).Some?
    decreases |acts|
  {
    if acts == [] then 0
    else
      StepInv(s, acts[0].tid, acts[0].action);
      var s' := Next(s, acts[0].tid, acts[0].action);
      (if acts[0].tid != t && s'.safe != s.safe then 1 else 0) + OthersMove(s', acts[1..], t)
  }

  /** The changes by others that must still come before the call can give up, if it never finds the range empty. */
  function MovesLeft(s: State, pc: Pc): nat {
    match pc
    case InDequeue(DeqSnapshot(_)) => MAX_RACE_TRIES
    case InDequeue(DeqCas(i, _, snap)) =>
      if i >= MAX_RACE_TRIES then 0
      else if s.safe == snap then MAX_RACE_TRIES - i else MAX_RACE_TRIES - i - 1
    case _ => 0
  }

  function DequeueLeft(pc: Pc): nat {
    match pc
    case InDequeue(DeqSnapshot(_)) => MAX_RACE_TRIES + 1
    case InDequeue(DeqCas(i, _, _)) => if i < MAX_RACE_TRIES then MAX_RACE_TRIES - i else 0
    case _ => 0
  }

  const NOTHING := QueueRange(0, 0)

  /** One access of a running dequeue that still wants `now` messages: a look, or the won CAS. */
  lemma DequeueStep(s: State, t: nat)
    requires Inv(s) && Enabled(s, t, Advance) && s.threads[t].InDequeue? && DequeueLeft(s.threads[t]) > 0
    requires DequeueOk(s.threads[t].deq)
    ensures var s', e, now := Next(s, t, Advance), EventOf(s, t, Advance), s.threads[t].deq.num;
      && t < |s'.threads| && DequeueLeft(s'.threads[t]) + 1 <= DequeueLeft(s.threads[t])
      && (Looks(s, t, Advance) ==>
        var found := s.safe.tail - s.safe.head;
        && e == Silent && s' == Goto(s, t, s'.threads[t])
        && (s'.threads[t].InDequeue? ==>
              s'.threads[t].deq.DeqCas? && DequeueLeft(s'.threads[t]) > 0 && found > 0
              && s'.threads[t].deq.num == (if now > found then found else now)
              && MovesLeft(s', s'.threads[t]) >= MovesLeft(s, s.threads[t]))
        && (!s'.threads[t].InDequeue? ==>
              s'.threads[t] == Idle(Taken(NOTHING)) && (found == 0 || MovesLeft(s, s.threads[t]) == 0)))
      && (!Looks(s, t, Advance) ==>
        var r := QueueRange(s.safe.head, s.safe.head + now);
        e == Get(r) && s'.threads[t] == Idle(Taken(r)))
  {
    assert ThreadOk(s, t);
  }

  /** What a call of dequeue that wanted `now` messages at `s` has come to at the end of the run. */
  ghost predicate DequeueOutcome(s: State, acts: seq<Act>, t: nat, now: nat, result: Result)
    requires Inv(s) && Execute(s, acts).Some? && t < |s.threads|
  {
    var mine := By(acts, Trace(s, acts), t);
    || (&& result == Taken(NOTHING) && mine == []
        && (Finds(s, acts, t, 0) || OthersMove(s, acts, t) >= MovesLeft(s, s.threads[t])))
    || (&& result.Taken? && mine == [Get(result.range)]
        && var r := result.range;
           && r.head <= r.tail <= r.head + now && (now > 0 ==> r.head < r.tail)
           && (r.tail < r.head + now ==> Finds(s, acts, t, r.tail - r.head)))
  }

  lemma {:induction false} DequeueSeeks(s: State, acts: seq<Act>, t: nat)
    requires Inv(s) && Execute(s, acts).Some? && t < |s.threads| && OneCall(acts, t)
    requires s.threads[t].InDequeue? && DequeueLeft(s.threads[t]) > 0
    ensures Accesses(acts, t) <= DequeueLeft(s.threads[t])
    ensures var end := Execute(s, acts).value;
      && t < |end.threads|
      && (end.threads[t].Idle? ==> DequeueOutcome(s, acts, t, s.threads[t].deq.num, end.threads[t].result))
    decreases |acts|
  {
    if acts != [] {
      var u, a, rest := acts[0].tid, acts[0].action, acts[1..];
      FirstStep(s, acts, t);
      var s' := Next(s, u, a);
      if u != t {
        DequeueSeeks(s', rest, t);
        assert s'.safe == s.safe ==> MovesLeft(s', s.threads[t]) == MovesLeft(s, s.threads[t]);
      } else {
        assert ThreadOk(s, t);
        DequeueStep(s, t);
        if s'.threads[t].InDequeue? { DequeueSeeks(s', rest, t); } else { StaysIdle(s', rest, t); }
      }
    }
  }

  /**
    Whatever the other threads do, a call of dequeue returns exactly the range it took from the ring,
    if it took one; that range has the length asked for, or as many messages as the call found
    available at one of its looks.  A call that took none returns (0, 0), and found nothing available
    or saw others change the safe range ten times.
   */
  lemma DequeueReturns(s: State, t: nat, num: nat, acts: seq<Act>, result: Result)
    requires Returns(s, t, Dequeue(num), acts, result)
    ensures var all := Whole(t, Dequeue(num), acts);
      var mine := By(all, Trace(s, all), t);
      && result.Taken? && result.range.head <= result.range.tail
      && var n := result.range.tail - result.range.head;
         && n <= num
         && (n > 0 ==> mine == [Get(result.range)] && (n == num || Finds(s, all, t, n)))
         && (n == 0 && num > 0 ==>
              result.range == NOTHING && mine == [] && (Finds(s, all, t, 0) || OthersMove(s, all, t) >= MAX_RACE_TRIES))
  {
    var all := Whole(t, Dequeue(num), acts);
    FirstStep(s, all, t);
    DequeueSeeks(Next(s, t, Start(Dequeue(num))), acts, t);
  }

  /** However the others interfere, a call of dequeue makes at most MAX_RACE_TRIES + 1 accesses. */
  lemma DequeueWaitFree(s: State, t: nat, num: nat, acts: seq<Act>)
    requires Inv(s) && OneCall(acts, t) && Execute(s, Whole(t, Dequeue(num), acts)).Some?
    ensures Accesses(acts, t) <= MAX_RACE_TRIES + 1
  {
    FirstStep(s, Whole(t, Dequeue(num), acts), t);
    DequeueSeeks(Next(s, t, Start(Dequeue(num))), acts, t);
  }

  // ---------------------------------------------------------------- gather, release and garbage collection

  /** How far the steps of thread `t` have moved the safe tail. */
  ghost function TailMovedBy(s: State, acts: seq<Act>, t: nat): int
    requires Inv(s) && Execute(s, acts).Some?
    decreases |acts|
  {
    if acts == [] then 0
    else
      StepInv(s, acts[0].tid, acts[0].action);
      var s' := Next(s, acts[0].tid, acts[0].action);
      (if acts[0].tid == t then s'.safe.tail - s.safe.tail else 0) + TailMovedBy(s', acts[1..], t)
  }

  /**
    The next access of `t` is one that stops gathering or garbage collection early: it finds the mutex
    taken, no message yet in the slot after the safe tail, or one in use after the locked head.
   */
  predicate Blocked(s: State, t: nat)
    requires Ordered(s) && t < |s.threads|
  {
    match s.threads[t]
    case InGather(GatSwap) => s.safeTailMtx != Free
    case InGather(GatProbe(_, _, _)) => s.slots[s.safe.tail % s.size].word == 0
    case InCollect(GcSwap) => s.lockedHeadMtx != Free
    case InCollect(GcProbe(_, _, _)) => s.slots[s.locked.head % s.size].word != 0
    case _ => false
  }

  ghost predicate EverBlocked(s: State, acts: seq<Act>, t: nat)
    requires Inv(s) && Execute(s, acts).Some? && t < |s.threads|
    decreases |acts|
  {
    && acts != []
    && (StepInv(s, acts[0].tid, acts[0].action);
        SameThreads(s, acts[0].tid, acts[0].action);
        || (acts[0].tid == t && Blocked(s, t))
        || EverBlocked(Next(s, acts[0].tid, acts[0].action), acts[1..], t))
  }

  /** What a gathering thread has found so far, and how far it will go if it meets no gap. */
  function FoundSoFar(pc: GatherPc): nat {
    match pc
    case GatIndex(n, _) => n
    case GatProbe(n, _, _) => n
    case GatReadTail(n, _) => n
    case GatWriteTail(n, _, _) => n
    case GatUnlock(n) => n
    case _ => 0
  }

  function Goal(s: State, pc: GatherPc): nat {
    match pc
    case GatSwap => s.locked.tail
    case GatLockedTail => s.locked.tail
    case GatSafeTail(lt) => lt
    case GatUnlock(_) => s.safe.tail
    case GatIndex(n, c) => if n < c then s.safe.tail + (c - n) else 0
    case GatProbe(n, c, _) => if n < c then s.safe.tail + (c - n) else 0
    case GatReadTail(n, c) => if n < c then s.safe.tail + (c - n) else 0
    case GatWriteTail(n, c, _) => if n < c then s.safe.tail + (c - n) else 0
  }

  lemma GatherOwn(s: State, t: nat)
    requires Inv(s) && Enabled(s, t, Advance) && s.threads[t].InGather?
    ensures var s', g := Next(s, t, Advance), s.threads[t].gat;
      && t < |s'.threads| && EventOf(s, t, Advance) == Silent
      && s'.safe.tail >= s.safe.tail
      && (s'.threads[t].InGather? ==>
        && s'.safe.tail - s.safe.tail == FoundSoFar(s'.threads[t].gat) - FoundSoFar(g)
        && (Goal(s', s'.threads[t].gat) >= Goal(s, g) || Blocked(s, t)))
      && (!s'.threads[t].InGather? ==>
        && s'.threads[t] == Idle(Found(FoundSoFar(g))) && s'.safe.tail == s.safe.tail
        && (s'.safe.tail >= Goal(s, g) || Blocked(s, t)))
  {
    assert ThreadOk(s, t);
  }

  lemma GatherOther(s: State, u: nat, a: Action, t: nat)
    requires Inv(s) && Enabled(s, u, a) && u != t && t < |s.threads| && s.threads[t].InGather?
    ensures Inv(Next(s, u, a)) && Goal(Next(s, u, a), s.threads[t].gat) >= Goal(s, s.threads[t].gat)
    ensures Next(s, u, a).safe.tail >= s.safe.tail
  {
    StepInv(s, u, a);
    assert ThreadOk(s, u) && ThreadOk(s, t);
  }

  lemma {:induction false} GatherSeeks(s: State, acts: seq<Act>, t: nat)
    requires Inv(s) && Execute(s, acts).Some? && t < |s.threads| && OneCall(acts, t) && s.threads[t].InGather?
    ensures s.safe.tail <= Execute(s, acts).value.safe.tail
    ensures var end := Execute(s, acts).value;
      && t < |end.threads|
      && (end.threads[t].Idle? ==>
        && By(acts, Trace(s, acts), t) == []
        && end.threads[t].result.Found?
        && end.threads[t].result.count == FoundSoFar(s.threads[t].gat) + TailMovedBy(s, acts, t)
        && (end.safe.tail >= Goal(s, s.threads[t].gat) || EverBlocked(s, acts, t)))
    decreases |acts|
  {
    if acts != [] {
      var u, a, rest := acts[0].tid, acts[0].action, acts[1..];
      FirstStep(s, acts, t);
      var s' := Next(s, u, a);
      if u != t {
        GatherOther(s, u, a, t);
        GatherSeeks(s', rest, t);
      } else {
        GatherOwn(s, t);
        if s'.threads[t].InGather? {
          GatherSeeks(s', rest, t);
        } else {
          StaysIdle(s', rest, t);
          StillMoves(s', rest, t);
        }
      }
    }
  }

  /** The safe tail never goes back, and an idle thread does not move it. */
  lemma {:induction false} StillMoves(s: State, acts: seq<Act>, t: nat)
    requires Inv(s) && Execute(s, acts).Some? && t < |s.threads|
    ensures s.safe.tail <= Execute(s, acts).value.safe.tail
    ensures OneCall(acts, t) && s.threads[t].Idle? ==> TailMovedBy(s, acts, t) == 0
    decreases |acts|
  {
    if acts != [] {
      FirstStep(s, acts, t);
      assert ThreadOk(s, acts[0].tid);
      StillMoves(Next(s, acts[0].tid, acts[0].action), acts[1..], t);
    }
  }

  /**
    gather_new_data returns by how much it moved the safe tail, and by its end the tail has passed all
    that was reserved when it began, unless it found the mutex taken or a message not yet stored.
   */
  lemma GatherReturns(s: State, t: nat, acts: seq<Act>, result: Result)
    requires Returns(s, t, Gather, acts, result)
    ensures var all := Whole(t, Gather, acts);
      && result.Found? && result.count == TailMovedBy(s, all, t)
      && (Execute(s, all).value.safe.tail >= s.locked.tail || EverBlocked(s, all, t))
  {
    var all := Whole(t, Gather, acts);
    FirstStep(s, all, t);
    GatherSeeks(Next(s, t, Start(Gather)), acts, t);
  }

  /** The phase of a released index is final. */
  lemma {:induction false} StaysReleased(s: State, acts: seq<Act>, lo: nat, hi: nat)
    requires Inv(s) && Execute(s, acts).Some? && hi <= |s.phase|
    requires forall k :: lo <= k < hi ==> s.phase[k] == Released
    ensures hi <= |Execute(s, acts).value.phase|
    ensures forall k :: lo <= k < hi ==> Execute(s, acts).value.phase[k] == Released
    decreases |acts|
  {
    if acts != [] {
      var u, a := acts[0].tid, acts[0].action;
      StepInv(s, u, a);
      assert ThreadOk(s, u);
      forall k: nat | lo <= k < hi ensures k < |Next(s, u, a).phase| && Next(s, u, a).phase[k] == Released {
        StepReleased(s, u, a, k);
      }
      StaysReleased(Next(s, u, a), acts[1..], lo, hi);
    }
  }

  lemma StepReleased(s: State, t: nat, a: Action, k: nat)
    requires Inv(s) && Enabled(s, t, a) && k < |s.phase| && s.phase[k] == Released
    ensures k < |Next(s, t, a).phase| && Next(s, t, a).phase[k] == Released
  {
    assert ThreadOk(s, t) && PhaseOk(s, k);
  }

  lemma {:induction false} ReleaseSeeks(s: State, acts: seq<Act>, t: nat, lo: nat, i: nat, hi: nat)
    requires Inv(s) && Execute(s, acts).Some? && t < |s.threads| && OneCall(acts, t)
    requires s.threads[t] == InRelease(i, hi) && lo <= i < hi <= |s.phase|
    requires forall k :: lo <= k < i ==> s.phase[k] == Released
    ensures var end := Execute(s, acts).value;
      && t < |end.threads| && hi <= |end.phase|
      && (end.threads[t].Idle? ==>
        end.threads[t] == Idle(NoResult) && forall k :: lo <= k < hi ==> end.phase[k] == Released)
    decreases |acts|
  {
    if acts != [] {
      var u, a, rest := acts[0].tid, acts[0].action, acts[1..];
      FirstStep(s, acts, t);
      var s' := Next(s, u, a);
      assert ThreadOk(s, u);
      forall k: nat | lo <= k < i ensures k < |s'.phase| && s'.phase[k] == Released { StepReleased(s, u, a, k); }
      if u != t { ReleaseSeeks(s', rest, t, lo, i, hi); }
      else if i + 1 < hi { ReleaseSeeks(s', rest, t, lo, i + 1, hi); }
      else { StaysIdle(s', rest, t); StaysReleased(s', rest, lo, hi); }
    }
  }

  /** When release has returned, every slot of its range that garbage collection has not passed is free. */
  lemma ReleaseReturns(s: State, t: nat, r: QueueRange, acts: seq<Act>, result: Result)
    requires Returns(s, t, Release(r), acts, result)
    ensures var end := Execute(s, Whole(t, Release(r), acts)).value;
      forall k: nat :: r.head <= k < r.tail ==>
        && k < |end.phase| && end.phase[k] == Released && k < end.locked.head + end.size
        && (end.locked.head <= k ==> end.slots[k % end.size].word == 0)
  {
    var all := Whole(t, Release(r), acts);
    FirstStep(s, all, t);
    var s0, end := Next(s, t, Start(Release(r))), Execute(s, all).value;
    if r.head < r.tail {
      ReleaseSeeks(s0, acts, t, r.head, r.head, r.tail);
      forall k: nat | r.head <= k < r.tail
        ensures end.phase[k] == Released && k < end.locked.head + end.size
          && (end.locked.head <= k ==> end.slots[k % end.size].word == 0)
      {
        assert PhaseOk(end, k);
        if end.locked.head <= k { assert SlotOk(end, k); }
      }
    }
  }

  function CollectGoal(s: State, pc: CollectPc): nat {
    match pc
    case GcSwap => s.safe.head
    case GcSafeHead => s.safe.head
    case GcLockedHead(sh) => sh
    case GcUnlock => s.locked.head
    case GcIndex(n, c) => if n < c then s.locked.head + (c - n) else 0
    case GcProbe(n, c, _) => if n < c then s.locked.head + (c - n) else 0
    case GcReadHead(n, c) => if n < c then s.locked.head + (c - n) else 0
    case GcWriteHead(n, c, _) => if n < c then s.locked.head + (c - n) else 0
  }

  lemma CollectOwn(s: State, t: nat)
    requires Inv(s) && Enabled(s, t, Advance) && s.threads[t].InCollect?
    ensures var s', c := Next(s, t, Advance), s.threads[t].gc;
      && t < |s'.threads| && s'.locked.head >= s.locked.head
      && (s'.threads[t].InCollect? ==>
        && !s'.threads[t].gc.GcSwap? && (Blocked(s, t) ==> !c.GcSwap?)
        && (CollectGoal(s', s'.threads[t].gc) >= CollectGoal(s, c) || Blocked(s, t)))
      && (!s'.threads[t].InCollect? ==>
        && s'.threads[t] == Idle(Ran(if c.GcSwap? then 0 else 1))
        && (c.GcSwap? ==> Blocked(s, t))
        && (s'.locked.head >= CollectGoal(s, c) || Blocked(s, t)))
  {
    assert ThreadOk(s, t);
  }

  lemma CollectOther(s: State, u: nat, a: Action, t: nat)
    requires Inv(s) && Enabled(s, u, a) && u != t && t < |s.threads| && s.threads[t].InCollect?
    ensures Inv(Next(s, u, a)) && CollectGoal(Next(s, u, a), s.threads[t].gc) >= CollectGoal(s, s.threads[t].gc)
    ensures Next(s, u, a).locked.head >= s.locked.head
  {
    StepInv(s, u, a);
    assert ThreadOk(s, u) && ThreadOk(s, t);
  }

  lemma {:induction false} HeadGrows(s: State, acts: seq<Act>)
    requires Inv(s) && Execute(s, acts).Some?
    ensures s.locked.head <= Execute(s, acts).value.locked.head
    decreases |acts|
  {
    if acts != [] {
      var u, a := acts[0].tid, acts[0].action;
      StepInv(s, u, a);
      TailGrows(s, u, a);
      HeadGrows(Next(s, u, a), acts[1..]);
    }
  }

  lemma {:induction false} CollectSeeks(s: State, acts: seq<Act>, t: nat)
    requires Inv(s) && Execute(s, acts).Some? && t < |s.threads| && OneCall(acts, t) && s.threads[t].InCollect?
    ensures var end := Execute(s, acts).value;
      && t < |end.threads|
      && (end.threads[t].Idle? ==>
        && (end.threads[t].result == Ran(1) || (end.threads[t].result == Ran(0) && s.threads[t].gc.GcSwap?))
        && (end.threads[t].result == Ran(0) ==> EverBlocked(s, acts, t))
        && (end.locked.head >= CollectGoal(s, s.threads[t].gc) || EverBlocked(s, acts, t)))
    decreases |acts|
  {
    if acts != [] {
      var u, a, rest := acts[0].tid, acts[0].action, acts[1..];
      FirstStep(s, acts, t);
      var s' := Next(s, u, a);
      if u != t {
        CollectOther(s, u, a, t);
        CollectSeeks(s', rest, t);
      } else {
        CollectOwn(s, t);
        if s'.threads[t].InCollect? { CollectSeeks(s', rest, t); } else { StaysIdle(s', rest, t); HeadGrows(s', rest); }
      }
    }
  }

  /**
    When garbage_collect has returned, the locked head has passed all that was dequeued when it began,
    unless the call found the mutex taken or a slot still in use; it returns 1 unless the mutex was taken.
   */
  lemma CollectReturns(s: State, t: nat, acts: seq<Act>, result: Result)
    requires Returns(s, t, Collect, acts, result)
    ensures var all := Whole(t, Collect, acts);
      && (result == Ran(1) || (result == Ran(0) && EverBlocked(s, all, t)))
      && (Execute(s, all).value.locked.head >= s.safe.head || EverBlocked(s, all, t))
  {
    var all := Whole(t, Collect, acts);
    FirstStep(s, all, t);
    CollectSeeks(Next(s, t, Start(Collect)), acts, t);
  }
}
