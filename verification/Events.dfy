/**
  The kernel's event signal, src/system/events.cpp: three work queues, one monitor whose signal
  should tell how many messages they hold, producers that add to it after they enqueue, and an
  event thread that subtracts what it dequeued.  The parts are the machines of `QueueSteps` and
  `LockSteps`, whose steps interleave freely with the updates of the signal.
 */
module Events {
  import opened Options
  import Q = QueueSteps
  import F = QueueFifo
  import L = LockSteps
  import R = LockRuns

  const MSG_MONITOR := 0

  /**
    `due` increments of the signal are still to come from calls of enqueue that reserved a slot
    or failed, and `owed` is what the event thread dequeued and has yet to subtract.  History:
    `failed` enqueues, and how much the clamp in monitor() has added to the signal.
   */
  datatype State = State(
    queues: seq<Q.State>,
    locks: L.State,
    due: nat,
    owed: nat,
    failed: nat,
    clamped: nat)

  datatype Step =
    | QueueStep(w: nat, t: nat, access: Q.Action)  // a shared access to queue `w`
    | Increment                                    // (*msg_signal)++ after an enqueue
    | Settle                                       // (*msg_signal) -= the number dequeued
    | LockStep(call: L.Action)                   // locks, monitors and the tick's notify

  function Pending(q: Q.State): nat
    requires Q.Ordered(q)
  {
    |F.Abstract(q).pending|
  }

  function AllPending(queues: seq<Q.State>): nat
    requires forall w :: 0 <= w < |queues| ==> Q.Ordered(queues[w])
  {
    if queues == [] then 0 else AllPending(queues[..|queues| - 1]) + Pending(queues[|queues| - 1])
  }

  function Signal(s: State): int
    requires MSG_MONITOR < |s.locks.locks|
  {
    s.locks.locks[MSG_MONITOR].signal
  }

  predicate OnMonitor(pc: L.Pc) {
    (pc.MonitorLock? || pc.MonitorCheck? || pc.MonitorWait?) && pc.m == MSG_MONITOR
  }

  /** Nobody but `Increment` and `Settle` changes the event signal: it is waited for and notified with diff 0. */
  predicate LeavesSignal(a: L.Action) {
    match a
    case CallMonitor(_, m, diff) => m == MSG_MONITOR ==> diff == 0
    case Notify(m, diff) => m == MSG_MONITOR ==> diff == 0
    case AddSignal(m, _) => m != MSG_MONITOR
    case _ => true
  }

  predicate DiffsZero(pcs: seq<L.Pc>) {
    forall t :: 0 <= t < |pcs| && OnMonitor(pcs[t]) ==> pcs[t].diff == 0
  }

  ghost predicate PartsOk(s: State) {
    && (forall w :: 0 <= w < |s.queues| ==> Q.Inv(s.queues[w]))
    && L.Inv(s.locks)
    && MSG_MONITOR < |s.locks.locks|
    && DiffsZero(s.locks.pcs)
  }

  /** The signal and the increments in flight account for every message, failure and clamp. */
  ghost predicate Balanced(s: State)
    requires PartsOk(s)
  {
    Signal(s) + s.due == AllPending(s.queues) + s.owed + s.failed + s.clamped
  }

  ghost predicate Inv(s: State) {
    PartsOk(s) && Balanced(s)
  }

  ghost predicate Enabled(s: State, step: Step)
    requires PartsOk(s)
  {
    match step
    case QueueStep(w, t, a) => w < |s.queues| && Q.Enabled(s.queues[w], t, a)
    case Increment => s.due > 0
    case Settle => true
    case LockStep(a) => L.Enabled(s.locks, a) && LeavesSignal(a)
  }

  predicate Fails(before: Q.Pc, after: Q.Pc) {
    before.InEnqueue? && after == Q.Idle(Q.Index(-1))
  }

  function AddToSignal(locks: L.State, diff: int): L.State
    requires MSG_MONITOR < |locks.locks|
  {
    L.SetLock(locks, MSG_MONITOR, locks.locks[MSG_MONITOR].(signal := locks.locks[MSG_MONITOR].signal + diff))
  }

  ghost function Next(s: State, step: Step): State
    requires PartsOk(s) && Enabled(s, step)
  {
    match step
    case QueueStep(w, t, a) =>
      var q := s.queues[w];
      var q' := Q.Next(q, t, a);
      var s' := s.(queues := s.queues[w := q']);
      (match F.EventOf(q, t, a)
       case Put(_, _) => s'.(due := s.due + 1)
       case Get(r) => if r.head <= r.tail then s'.(owed := s.owed + (r.tail - r.head)) else s'
       case _ =>
         if a.Advance? && Fails(q.threads[t], q'.threads[t])
         then s'.(due := s.due + 1, failed := s.failed + 1) else s')
    case Increment => s.(locks := AddToSignal(s.locks, 1), due := s.due - 1)
    case Settle => s.(locks := AddToSignal(s.locks, 0 - s.owed), owed := 0)
    case LockStep(a) =>
      var locks' := L.Next(s.locks, a);
      var rise := if MSG_MONITOR < |locks'.locks| then locks'.locks[MSG_MONITOR].signal - Signal(s) else 0;
      s.(locks := locks', clamped := if rise > 0 then s.clamped + rise else s.clamped)
  }

  // ---------------------------------------------------------------- every step keeps the balance

  lemma QueueStepPending(q: Q.State, t: nat, a: Q.Action)
    requires Q.Inv(q) && Q.Enabled(q, t, a)
    ensures Q.Inv(Q.Next(q, t, a))
    ensures match F.EventOf(q, t, a)
      case Put(_, _) => Pending(Q.Next(q, t, a)) == Pending(q) + 1
      case Get(r) => r.head <= r.tail && Pending(Q.Next(q, t, a)) == Pending(q) - (r.tail - r.head)
      case _ => Pending(Q.Next(q, t, a)) == Pending(q)
  {
    F.StepRefines(q, t, a);
  }

  lemma {:induction false} PendingUpdate(queues: seq<Q.State>, w: nat, q: Q.State)
    requires w < |queues| && Q.Ordered(q)
    requires forall v :: 0 <= v < |queues| ==> Q.Ordered(queues[v])
    ensures AllPending(queues[w := q]) == AllPending(queues) - Pending(queues[w]) + Pending(q)
  {
    var n := |queues| - 1;
    var queues' := queues[w := q];
    if w < n {
      PendingUpdate(queues[..n], w, q);
      assert queues'[..n] == queues[..n][w := q];
    } else {
      assert queues'[..n] == queues[..n];
    }
  }

  lemma QueueStepInv(s: State, w: nat, t: nat, a: Q.Action)
    requires Inv(s) && Enabled(s, QueueStep(w, t, a))
    ensures Inv(Next(s, QueueStep(w, t, a)))
  {
    var q := s.queues[w];
    QueueStepPending(q, t, a);
    hide Q.Next, Q.Enabled, Q.Inv, F.EventOf, Pending, L.Inv, DiffsZero;
    OrderedIfInv(s);
    QueueOrdered(Q.Next(q, t, a));
    PendingUpdate(s.queues, w, Q.Next(q, t, a));
  }

  lemma QueueOrdered(q: Q.State)
    requires Q.Inv(q)
    ensures Q.Ordered(q)
  {
  }

  lemma OrderedIfInv(s: State)
    requires PartsOk(s)
    ensures forall w :: 0 <= w < |s.queues| ==> Q.Ordered(s.queues[w])
  {
  }

  /** A call of lock() or monitor() leaves all signals alone. */
  lemma AcquireSignal(locks: L.State, t: nat, l: nat, got: L.Pc, queued: L.Pc)
    requires L.Sized(locks) && t < |locks.threads| && l < |locks.locks| && L.LockOk(locks, l)
    requires MSG_MONITOR < |locks.locks| && DiffsZero(locks.pcs)
    requires (OnMonitor(got) ==> got.diff == 0) && (OnMonitor(queued) ==> queued.diff == 0)
    ensures var locks' := L.Acquire(locks, t, l, got, queued);
      && |locks'.locks| == |locks.locks|
      && locks'.locks[MSG_MONITOR].signal == locks.locks[MSG_MONITOR].signal
      && DiffsZero(locks'.pcs)
  {
  }

  /** Only monitor()'s clamp touches the event signal, and only upwards. */
  lemma LockStepSignal(locks: L.State, a: L.Action)
    requires L.Inv(locks) && MSG_MONITOR < |locks.locks| && DiffsZero(locks.pcs)
    requires L.Enabled(locks, a) && LeavesSignal(a)
    ensures var locks' := L.Next(locks, a);
      && |locks'.locks| == |locks.locks|
      && locks'.locks[MSG_MONITOR].signal >= locks.locks[MSG_MONITOR].signal
      && DiffsZero(locks'.pcs)
  {
    match a
    case Resume(t) => assert L.ThreadOk(locks, t);
    case CallLock(t, l) =>
      assert L.LockOk(locks, l);
      AcquireSignal(locks, t, l, L.Outside, L.InLock(l));
    case CallUnlock(t, l) => assert L.LockOk(locks, l);
    case CallMonitor(t, m, diff) =>
      assert L.LockOk(locks, m);
      AcquireSignal(locks, t, m, L.MonitorCheck(m, diff), L.MonitorLock(m, diff));
    case Notify(m, _) => assert L.LockOk(locks, m);
    case AddSignal(_, _) =>
    case Spawn(t) => assert L.ThreadOk(locks, t);
  }

  lemma StepInv(s: State, step: Step)
    requires Inv(s) && Enabled(s, step)
    ensures Inv(Next(s, step))
  {
    match step
    case QueueStep(w, t, a) => QueueStepInv(s, w, t, a);
    case LockStep(a) =>
      L.StepInv(s.locks, a);
      LockStepSignal(s.locks, a);
    case _ =>
      var diff := if step.Increment? then 1 else 0 - s.owed;
      L.StepInv(s.locks, L.AddSignal(MSG_MONITOR, diff));
  }

  // ---------------------------------------------------------------- whole runs

  ghost predicate Runs(s: State, steps: seq<Step>, end: State)
    decreases |steps|
  {
    if steps == [] then end == s
    else PartsOk(s) && Enabled(s, steps[0]) && Runs(Next(s, steps[0]), steps[1..], end)
  }

  lemma {:induction false} RunInv(s: State, steps: seq<Step>, end: State)
    requires Inv(s) && Runs(s, steps, end)
    ensures Inv(end)
    decreases |steps|
  {
    if steps != [] {
      StepInv(s, steps[0]);
      RunInv(Next(s, steps[0]), steps[1..], end);
    }
  }

  /** init_events: empty queues, and a signal of 0. */
  ghost predicate Starting(s: State) {
    && PartsOk(s)
    && (forall w :: 0 <= w < |s.queues| ==> s.queues[w].log == [])
    && Signal(s) == s.due == s.owed == s.failed == s.clamped == 0
  }

  lemma {:induction false} NothingPending(queues: seq<Q.State>)
    requires forall w :: 0 <= w < |queues| ==> Q.Ordered(queues[w]) && queues[w].log == []
    ensures AllPending(queues) == 0
  {
    if queues != [] { NothingPending(queues[..|queues| - 1]); }
  }

  lemma StartingInv(s: State)
    requires Starting(s)
    ensures Inv(s)
  {
    NothingPending(s.queues);
  }

  /**
    Over every run the signal and the increments in flight cover the messages that are reserved
    and not dequeued, and those dequeued and not yet subtracted.
   */
  lemma SignalCovers(s: State, steps: seq<Step>, end: State)
    requires Starting(s) && Runs(s, steps, end)
    ensures PartsOk(end)
    ensures Signal(end) + end.due == AllPending(end.queues) + end.owed + end.failed + end.clamped
    ensures Signal(end) + end.due >= AllPending(end.queues) + end.owed
  {
    StartingInv(s);
    RunInv(s, steps, end);
  }

  /**
    No lost wake-up: with messages pending and no increment in flight, the tick's notify(0) leaves
    thread `t` not waiting for the event signal, and if it stands in monitor()'s wait it runs and
    returns from monitor(), the signal still covering the messages.
   */
  lemma NoLostWakeup(s: State, steps: seq<Step>, end: State, t: nat)
    requires Starting(s) && Runs(s, steps, end)
    requires t < |end.locks.threads| && end.due == 0
    requires PartsOk(end) && AllPending(end.queues) > 0
    ensures Enabled(end, LockStep(L.Notify(MSG_MONITOR, 0)))
    ensures var tick := Next(end, LockStep(L.Notify(MSG_MONITOR, 0)));
      && Inv(tick)
      && t < |tick.locks.threads| == |tick.locks.pcs|
      && tick.locks.threads[t].signalWait != Some(MSG_MONITOR)
      && (tick.locks.pcs[t].MonitorWait? && tick.locks.pcs[t].m == MSG_MONITOR ==>
            && Enabled(tick, LockStep(L.Resume(t)))
            && var back := Next(tick, LockStep(L.Resume(t)));
               back.locks.pcs[t] == L.Outside && Signal(back) == Signal(tick) >= AllPending(back.queues))
  {
    SignalCovers(s, steps, end);
    var notify := LockStep(L.Notify(MSG_MONITOR, 0));
    StepInv(end, notify);
    R.NotifyWakes(end.locks, MSG_MONITOR, 0, t);
    assert L.ThreadOk(Next(end, notify).locks, t);
  }

  /**
    With nothing pending, owed or in flight, the event thread finds a signal to block on exactly if
    no enqueue ever failed and the clamp never acted: each failure leaves the signal one too high.
   */
  lemma BlocksWhenIdle(s: State, steps: seq<Step>, end: State)
    requires Starting(s) && Runs(s, steps, end)
    ensures PartsOk(end)
    ensures AllPending(end.queues) == end.owed == end.due == 0 ==>
      (Signal(end) <= 0 <==> end.failed == 0 && end.clamped == 0)
  {
    SignalCovers(s, steps, end);
  }
}
