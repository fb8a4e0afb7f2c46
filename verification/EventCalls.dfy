/**
  What single calls contribute to the event signal of src/system/events.cpp: each enqueue one
  increment, each dequeue as much as the length of the range it returns.
 */
module EventCalls {
  import opened Events
  import Q = QueueSteps
  import F = QueueFifo
  import L = LockSteps
  import C = QueueResults
  import Failures = QueueFailures

  /** The step moves thread `t` of queue `w`. */
  predicate Moves(step: Step, w: nat, t: nat) {
    step.QueueStep? && step.w == w && step.t == t
  }

  /** All that thread `t` does in queue `w` belongs to the call it is in. */
  predicate OneCall(steps: seq<Step>, w: nat, t: nat) {
    forall i :: 0 <= i < |steps| && Moves(steps[i], w, t) ==> steps[i].access.Advance?
  }

  /** What a call has brought: increments due, failures, and messages the event thread must subtract. */
  datatype Account = Account(due: int, failed: int, owed: int)

  function Plus(a: Account, b: Account): Account {
    Account(a.due + b.due, a.failed + b.failed, a.owed + b.owed)
  }

  const NOTHING := Account(0, 0, 0)

  function Change(s: State, s': State): Account {
    Account(s'.due - s.due, s'.failed - s.failed, s'.owed - s.owed)
  }

  /** The changes that the steps of thread `t` of queue `w` make over a run. */
  ghost function AccountOf(s: State, steps: seq<Step>, w: nat, t: nat): Account
    decreases |steps|
  {
    if steps == [] || !PartsOk(s) || !Enabled(s, steps[0]) then NOTHING
    else
      var s' := Next(s, steps[0]);
      Plus(if Moves(steps[0], w, t) then Change(s, s') else NOTHING, AccountOf(s', steps[1..], w, t))
  }

  predicate InRing(s: State, w: nat, t: nat) {
    w < |s.queues| && t < |s.queues[w].threads|
  }

  /** What an access of thread `t` brings, by its effect on the ring and on where the call stands. */
  function Brings(q: Q.State, t: nat): Account
    requires Q.Inv(q) && Q.Enabled(q, t, Q.Advance)
  {
    var q' := Q.Next(q, t, Q.Advance);
    if |q'.log| > |q.log| then Account(1, 0, 0)
    else if q.threads[t].InEnqueue? && t < |q'.threads| && q'.threads[t] == Q.Idle(Q.Index(-1)) then Account(1, 1, 0)
    else Account(0, 0, q'.safe.head - q.safe.head)
  }

  lemma StepBrings(s: State, w: nat, t: nat)
    requires PartsOk(s) && InRing(s, w, t) && Enabled(s, QueueStep(w, t, Q.Advance))
    ensures Change(s, Next(s, QueueStep(w, t, Q.Advance))) == Brings(s.queues[w], t)
  {
    assert Q.ThreadOk(s.queues[w], t);
  }

  /** An access of an enqueue that has no index yet brings what is then no longer outstanding. */
  lemma SeekingBrings(q: Q.State, t: nat, msg: Q.Message)
    requires Q.Inv(q) && Q.Enabled(q, t, Q.Advance) && C.Seeking(q.threads[t], msg)
    ensures var q' := Q.Next(q, t, Q.Advance);
      && t < |q'.threads|
      && (if q'.threads[t].Idle? then
            q'.threads[t].result == Q.Index(-1) && Brings(q, t) == Account(1, 1, 0)
          else if C.Seeking(q'.threads[t], msg) then Brings(q, t) == NOTHING
          else
            && q'.threads[t] == Q.InEnqueue(Q.EnqStore(msg, |q.log|)) && Brings(q, t) == Account(1, 0, 0)
            && |q.log| < |q'.log| && q'.log[|q.log|] == msg)
  {
    C.SeekingStep(q, t, msg);
    if F.EventOf(q, t, Q.Advance) == F.Silent { F.SilentKeeps(q, t, Q.Advance); }
    hide Q.Next, Q.Inv, F.EventOf;
  }

  lemma StoreBrings(q: Q.State, t: nat, msg: Q.Message, k: nat)
    requires Q.Inv(q) && Q.Enabled(q, t, Q.Advance) && q.threads[t] == Q.InEnqueue(Q.EnqStore(msg, k))
    ensures var q' := Q.Next(q, t, Q.Advance);
      t < |q'.threads| && q'.threads[t] == Q.Idle(Q.Index(k)) && Brings(q, t) == NOTHING
  {
    assert Q.ThreadOk(q, t);
    F.SilentKeeps(q, t, Q.Advance);
  }

  lemma DequeueBrings(q: Q.State, t: nat)
    requires Q.Inv(q) && Q.Enabled(q, t, Q.Advance) && q.threads[t].InDequeue? && C.DequeueLeft(q.threads[t]) > 0
    ensures var q' := Q.Next(q, t, Q.Advance);
      && t < |q'.threads|
      && (if q'.threads[t].Idle? then
            q'.threads[t].result.Taken? && Brings(q, t) == Account(0, 0, Length(q'.threads[t].result))
          else q'.threads[t].InDequeue? && C.DequeueLeft(q'.threads[t]) > 0 && Brings(q, t) == NOTHING)
  {
    assert Q.ThreadOk(q, t);
    C.DequeueStep(q, t);
    F.StepRefines(q, t, Q.Advance);
    if F.EventOf(q, t, Q.Advance) == F.Silent { F.SilentKeeps(q, t, Q.Advance); } else { TakeMoves(q, t); }
    hide Q.Next, Q.Inv, F.EventOf;
  }

  lemma TakeMoves(q: Q.State, t: nat)
    requires Q.Inv(q) && Q.Enabled(q, t, Q.Advance) && q.threads[t].InDequeue?
    requires F.EventOf(q, t, Q.Advance).Get?
    ensures var q', r := Q.Next(q, t, Q.Advance), F.EventOf(q, t, Q.Advance).range;
      q'.log == q.log && q'.safe.head - q.safe.head == r.tail - r.head
  {
  }

  /** The length of the range a dequeue returned. */
  function Length(result: Q.Result): int {
    if result.Taken? then result.range.tail - result.range.head else 0
  }

  // ---------------------------------------------------------------- whole runs

  function ThreadAt(s: State, w: nat, t: nat): Q.Pc
    requires InRing(s, w, t)
  {
    s.queues[w].threads[t]
  }

  lemma QueuesAfter(s: State, step: Step)
    requires PartsOk(s) && Enabled(s, step)
    ensures Next(s, step).queues ==
      if step.QueueStep? then s.queues[step.w := Q.Next(s.queues[step.w], step.t, step.access)] else s.queues
  {
  }

  /** Where thread `t` of queue `w` stands after a step. */
  lemma ThreadAfter(s: State, step: Step, w: nat, t: nat)
    requires PartsOk(s) && Enabled(s, step) && InRing(s, w, t)
    ensures var s' := Next(s, step);
      && InRing(s', w, t)
      && if Moves(step, w, t) then s'.queues[w] == Q.Next(s.queues[w], t, step.access)
         else ThreadAt(s', w, t) == ThreadAt(s, w, t)
  {
    QueuesAfter(s, step);
    if step.QueueStep? { Failures.SameThreads(s.queues[step.w], step.t, step.access); }
    hide Next, Q.Next, Q.Inv;
  }

  /** The first step of a run, and what it adds to the account of thread `t`. */
  lemma FirstStep(s: State, steps: seq<Step>, end: State, w: nat, t: nat)
    requires Inv(s) && steps != [] && Runs(s, steps, end) && InRing(s, w, t) && OneCall(steps, w, t)
    ensures var s', rest := Next(s, steps[0]), steps[1..];
      && Enabled(s, steps[0]) && Inv(s') && Runs(s', rest, end) && InRing(s', w, t) && OneCall(rest, w, t)
      && if Moves(steps[0], w, t) then
           && Q.Enabled(s.queues[w], t, Q.Advance) && s'.queues[w] == Q.Next(s.queues[w], t, Q.Advance)
           && AccountOf(s, steps, w, t) == Plus(Brings(s.queues[w], t), AccountOf(s', rest, w, t))
         else ThreadAt(s', w, t) == ThreadAt(s, w, t) && AccountOf(s, steps, w, t) == AccountOf(s', rest, w, t)
  {
    StepInv(s, steps[0]);
    ThreadAfter(s, steps[0], w, t);
    if Moves(steps[0], w, t) { StepBrings(s, w, t); }
    hide Next, Q.Next, Q.Inv, Brings, L.Inv;
  }

  lemma {:induction false} IdleAccount(s: State, steps: seq<Step>, end: State, w: nat, t: nat)
    requires Inv(s) && Runs(s, steps, end) && InRing(s, w, t) && OneCall(steps, w, t) && ThreadAt(s, w, t).Idle?
    ensures InRing(end, w, t) && ThreadAt(end, w, t) == ThreadAt(s, w, t) && AccountOf(s, steps, w, t) == NOTHING
    decreases |steps|
  {
    if steps != [] {
      FirstStep(s, steps, end, w, t);
      IdleAccount(Next(s, steps[0]), steps[1..], end, w, t);
    }
  }

  lemma {:induction false} StoreAccount(s: State, steps: seq<Step>, end: State, w: nat, t: nat, msg: Q.Message, k: nat)
    requires Inv(s) && Runs(s, steps, end) && InRing(s, w, t) && OneCall(steps, w, t)
    requires ThreadAt(s, w, t) == Q.InEnqueue(Q.EnqStore(msg, k))
    ensures InRing(end, w, t)
    ensures ThreadAt(end, w, t).Idle? ==>
      ThreadAt(end, w, t).result == Q.Index(k) && AccountOf(s, steps, w, t) == NOTHING
    decreases |steps|
  {
    if steps != [] {
      FirstStep(s, steps, end, w, t);
      if Moves(steps[0], w, t) {
        StoreBrings(s.queues[w], t, msg, k);
        hide Inv, Next, AccountOf, Q.Next, Q.Inv, Brings, Runs;
        IdleAccount(Next(s, steps[0]), steps[1..], end, w, t);
      } else {
        hide Inv, Next, AccountOf, Q.Next, Q.Inv, Brings, Runs;
        StoreAccount(Next(s, steps[0]), steps[1..], end, w, t, msg, k);
      }
    }
  }

  /** The first step of a run of an enqueue that has no index yet. */
  lemma SeekingMove(s: State, steps: seq<Step>, end: State, w: nat, t: nat, msg: Q.Message)
    requires Inv(s) && steps != [] && Runs(s, steps, end) && InRing(s, w, t) && OneCall(steps, w, t)
    requires C.Seeking(ThreadAt(s, w, t), msg)
    ensures var s', rest := Next(s, steps[0]), steps[1..];
      && Inv(s') && Runs(s', rest, end) && InRing(s', w, t) && OneCall(rest, w, t)
      && var pc', whole, left := ThreadAt(s', w, t), AccountOf(s, steps, w, t), AccountOf(s', rest, w, t);
         || (pc' == Q.Idle(Q.Index(-1)) && whole == Plus(Account(1, 1, 0), left))
         || (C.Seeking(pc', msg) && whole == left)
         || (pc' == Q.InEnqueue(Q.EnqStore(msg, |s.queues[w].log|)) && whole == Plus(Account(1, 0, 0), left))
  {
    FirstStep(s, steps, end, w, t);
    if Moves(steps[0], w, t) { SeekingBrings(s.queues[w], t, msg); }
    hide Inv, Next, AccountOf, Q.Next, Q.Inv, Brings, Runs, C.Seeking, OneCall, Enabled, Q.Enabled;
  }

  lemma {:induction false} EnqueueAccount(s: State, steps: seq<Step>, end: State, w: nat, t: nat, msg: Q.Message)
    requires Inv(s) && Runs(s, steps, end) && InRing(s, w, t) && OneCall(steps, w, t)
    requires C.Seeking(ThreadAt(s, w, t), msg)
    ensures InRing(end, w, t)
    ensures ThreadAt(end, w, t).Idle? ==>
      AccountOf(s, steps, w, t) == Account(1, if ThreadAt(end, w, t).result == Q.Index(-1) then 1 else 0, 0)
    decreases |steps|
  {
    hide Inv, Next, AccountOf, Q.Next, Q.Inv, OneCall, Enabled, Q.Enabled;
    if steps == [] {
      assert end == s && !ThreadAt(s, w, t).Idle?;
    } else {
      SeekingMove(s, steps, end, w, t, msg);
      var s', rest := Next(s, steps[0]), steps[1..];
      var log := s.queues[w].log;
      hide Runs, C.Seeking, InRing;
      if ThreadAt(s', w, t).Idle? {
        IdleAccount(s', rest, end, w, t);
      } else if C.Seeking(ThreadAt(s', w, t), msg) {
        EnqueueAccount(s', rest, end, w, t, msg);
      } else {
        StoreAccount(s', rest, end, w, t, msg, |log|);
      }
    }
  }

  lemma {:induction false} DequeueAccount(s: State, steps: seq<Step>, end: State, w: nat, t: nat)
    requires Inv(s) && Runs(s, steps, end) && InRing(s, w, t) && OneCall(steps, w, t)
    requires ThreadAt(s, w, t).InDequeue? && C.DequeueLeft(ThreadAt(s, w, t)) > 0
    ensures InRing(end, w, t)
    ensures ThreadAt(end, w, t).Idle? ==>
      AccountOf(s, steps, w, t) == Account(0, 0, Length(ThreadAt(end, w, t).result))
    decreases |steps|
  {
    if steps != [] {
      FirstStep(s, steps, end, w, t);
      var s', rest := Next(s, steps[0]), steps[1..];
      if Moves(steps[0], w, t) {
        DequeueBrings(s.queues[w], t);
        hide Inv, Next, AccountOf, Q.Next, Q.Inv, Brings, Runs;
        if ThreadAt(s', w, t).Idle? { IdleAccount(s', rest, end, w, t); } else { DequeueAccount(s', rest, end, w, t); }
      } else {
        hide Inv, Next, AccountOf, Q.Next, Q.Inv, Brings, Runs;
        DequeueAccount(s', rest, end, w, t);
      }
    }
  }

  /** The start of a call brings nothing. */
  lemma Starts(s: State, w: nat, t: nat, call: Q.Call, steps: seq<Step>, end: State)
    requires Inv(s) && InRing(s, w, t) && Runs(s, [QueueStep(w, t, Q.Start(call))] + steps, end)
    ensures var start := QueueStep(w, t, Q.Start(call));
      && Enabled(s, start)
      && var s' := Next(s, start);
         && Inv(s') && Runs(s', steps, end) && InRing(s', w, t) && s'.queues[w] == Q.Begin(s.queues[w], t, call)
         && AccountOf(s, [start] + steps, w, t) == AccountOf(s', steps, w, t)
  {
    var start := QueueStep(w, t, Q.Start(call));
    var all := [start] + steps;
    assert all[0] == start && all[1..] == steps;
    StepInv(s, start);
    ThreadAfter(s, start, w, t);
    var s' := Next(s, start);
    assert Change(s, s') == NOTHING;
    assert AccountOf(s, all, w, t) == Plus(NOTHING, AccountOf(s', steps, w, t));
  }

  /**
    Whatever else happens, a call of enqueue that has ended has made exactly one increment of the event
    signal due, and has been counted as failed exactly if it returned -1.
   */
  lemma EnqueueSignals(s: State, w: nat, t: nat, msg: Q.Message, steps: seq<Step>, end: State)
    requires Inv(s) && InRing(s, w, t) && Runs(s, [QueueStep(w, t, Q.Start(Q.Enqueue(msg)))] + steps, end)
    requires OneCall(steps, w, t) && InRing(end, w, t) && ThreadAt(end, w, t).Idle?
    ensures AccountOf(s, [QueueStep(w, t, Q.Start(Q.Enqueue(msg)))] + steps, w, t) ==
      Account(1, if ThreadAt(end, w, t).result == Q.Index(-1) then 1 else 0, 0)
  {
    var start := QueueStep(w, t, Q.Start(Q.Enqueue(msg)));
    Starts(s, w, t, start.access.call, steps, end);
    hide Inv, Next, AccountOf, Q.Inv, Runs;
    EnqueueAccount(Next(s, start), steps, end, w, t, msg);
  }

  /** A call of dequeue that has ended leaves exactly the length of the range it returned to be subtracted. */
  lemma DequeueOwes(s: State, w: nat, t: nat, num: nat, steps: seq<Step>, end: State)
    requires Inv(s) && InRing(s, w, t) && Runs(s, [QueueStep(w, t, Q.Start(Q.Dequeue(num)))] + steps, end)
    requires OneCall(steps, w, t) && InRing(end, w, t) && ThreadAt(end, w, t).Idle?
    ensures AccountOf(s, [QueueStep(w, t, Q.Start(Q.Dequeue(num)))] + steps, w, t) ==
      Account(0, 0, Length(ThreadAt(end, w, t).result))
  {
    var start := QueueStep(w, t, Q.Start(Q.Dequeue(num)));
    Starts(s, w, t, start.access.call, steps, end);
    hide Inv, Next, AccountOf, Q.Inv, Runs;
    DequeueAccount(Next(s, start), steps, end, w, t);
  }
}
