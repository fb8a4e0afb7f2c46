/**
  What the locks and monitors guarantee over every run in which only owners unlock.
 */
module LockRuns {
  import opened Options
  import opened LockSteps

  function Execute(s: State, acts: seq<Action>): (r: Option<State>)
    requires Inv(s)
    ensures r.Some? ==> Inv(r.value)
    decreases |acts|
  {
    if acts == [] then Some(s)
    else if !Enabled(s, acts[0]) then None
    else
      StepInv(s, acts[0]);
      Execute(Next(s, acts[0]), acts[1..])
  }

  /** Start-up: free locks, no thread inside a call. */
  function Fresh(threads: seq<Thread>, numLocks: nat): (s: State)
    requires forall t :: 0 <= t < |threads| ==>
      threads[t].runState != Waiting && threads[t].signalWait == None && threads[t].lockNext == None
    ensures Inv(s)
  {
    State(threads, seq(numLocks, _ => Lock(None, None, 0)), seq(|threads|, _ => Outside), seq(numLocks, _ => []))
  }

  /**
    A waiting thread is either in exactly one lock queue, with no signal wait, or is the owner of
    the monitor lock whose signal it waits on, and then in no queue.
   */
  lemma WaitingPlace(s: State, t: nat)
    requires Inv(s) && t < |s.threads| && s.threads[t].runState == Waiting
    ensures
      || (s.threads[t].signalWait == None
          && exists l :: Queued(s, t, l) && forall k :: Queued(s, t, k) ==> k == l)
      || (s.threads[t].signalWait.Some? && Owns(s, t, s.threads[t].signalWait.value)
          && forall k :: !Queued(s, t, k))
  {
    assert ThreadOk(s, t);
    forall k | Queued(s, t, k) ensures WaitsFor(s.pcs[t], k) { assert LockOk(s, k); }
    match s.pcs[t]
    case InLock(l) => assert Queued(s, t, l);
    case MonitorLock(m, _) => assert Queued(s, t, m);
    case MonitorWait(m, _) =>
    case Outside =>
    case MonitorCheck(_, _) =>
  }

  /** Queues are disjoint, repeat no thread, and never contain the owner; a free lock has no queue. */
  lemma QueuesDisjoint(s: State, l: nat, k: nat, i: nat, j: nat)
    requires Inv(s) && l < |s.locks| && k < |s.locks| && i < |s.queues[l]| && j < |s.queues[k]|
    ensures s.queues[l][i] == s.queues[k][j] ==> l == k && i == j
    ensures s.locks[l].owner.Some? && s.locks[l].owner.value != s.queues[l][i]
  {
    assert LockOk(s, l) && LockOk(s, k);
  }

  /** `lock` returns only to the owner, and `monitor` goes on past `lock` only as the owner. */
  lemma OnlyOwnerReturns(s: State, t: nat)
    requires Inv(s) && t < |s.threads| && s.threads[t].runState == Running
    ensures s.pcs[t].InLock? ==> Owns(s, t, s.pcs[t].l)
    ensures s.pcs[t].MonitorLock? ==>
      Owns(s, t, s.pcs[t].m) && Continue(s, t).pcs[t] == MonitorCheck(s.pcs[t].m, s.pcs[t].diff)
    ensures s.pcs[t].MonitorCheck? || s.pcs[t].MonitorWait? ==> Owns(s, t, s.pcs[t].m)
  {
    assert ThreadOk(s, t);
  }

  /** After a notification that leaves the signal positive, the owner is not waiting for it. */
  lemma NotifyWakes(s: State, m: nat, diff: int, t: nat)
    requires Inv(s) && m < |s.locks| && t < |s.threads| && s.locks[m].signal + diff > 0
    ensures Inv(Next(s, Notify(m, diff)))
    ensures var s' := Next(s, Notify(m, diff));
      s'.locks[m].signal == s.locks[m].signal + diff && s'.threads[t].signalWait != Some(m)
    ensures s.threads[t].signalWait == Some(m) ==> Next(s, Notify(m, diff)).threads[t].runState == Running
  {
    StepInv(s, Notify(m, diff));
    assert ThreadOk(s, t) && LockOk(s, m);
  }

  // ---------------------------------------------------------------- first come, first served

  function Unlocks(acts: seq<Action>, l: nat): nat {
    if acts == [] then 0
    else (if acts[0].CallUnlock? && acts[0].l == l then 1 else 0) + Unlocks(acts[1..], l)
  }

  lemma StepPosition(s: State, a: Action, t: nat, l: nat, k: nat)
    requires Inv(s) && Enabled(s, a) && l < |s.locks| && k < |s.queues[l]| && s.queues[l][k] == t
    ensures var s' := Next(s, a);
      && |s'.queues| == |s.queues| && |s'.locks| == |s.locks|
      && if a.CallUnlock? && a.l == l then
           if k == 0 then s'.locks[l].owner == Some(t) else k - 1 < |s'.queues[l]| && s'.queues[l][k - 1] == t
         else k < |s'.queues[l]| && s'.queues[l][k] == t
  {
    assert LockOk(s, l);
    match a
    case CallUnlock(u, m) =>
      assert LockOk(s, m);
      if m == l && k > 0 { assert s.queues[l][1..][k - 1] == t; }
    case CallLock(_, m) => assert LockOk(s, m);
    case CallMonitor(_, m, _) => assert LockOk(s, m);
    case Resume(u) => assert ThreadOk(s, u);
    case Notify(m, _) => assert LockOk(s, m);
    case AddSignal(_, _) =>
    case Spawn(_) =>
  }

  /** Whatever else happens, each unlock moves a queued thread one place forward, and nothing else does. */
  lemma {:induction false} QueuePosition(s: State, acts: seq<Action>, t: nat, l: nat, k: nat)
    requires Inv(s) && Execute(s, acts).Some?
    requires l < |s.locks| && k < |s.queues[l]| && s.queues[l][k] == t
    requires Unlocks(acts, l) <= k
    ensures var s' := Execute(s, acts).value;
      && l < |s'.queues| && k - Unlocks(acts, l) < |s'.queues[l]|
      && s'.queues[l][k - Unlocks(acts, l)] == t
      && !Owns(s', t, l)
    decreases |acts|
  {
    if acts == [] {
      assert LockOk(s, l);
    } else {
      var a := acts[0];
      StepInv(s, a);
      StepPosition(s, a, t, l, k);
      var unlock := a.CallUnlock? && a.l == l;
      QueuePosition(Next(s, a), acts[1..], t, l, if unlock then k - 1 else k);
    }
  }

  /**
    A thread at place k of a queue (counting from 0) becomes the owner at the (k+1)-th later unlock
    of that lock, and owns it at no moment before.
   */
  lemma GrantedInOrder(s: State, acts: seq<Action>, u: nat, t: nat, l: nat, k: nat)
    requires Inv(s) && Execute(s, acts).Some?
    requires l < |s.locks| && k < |s.queues[l]| && s.queues[l][k] == t
    requires Unlocks(acts, l) == k
    requires Enabled(Execute(s, acts).value, CallUnlock(u, l))
    ensures !Owns(Execute(s, acts).value, t, l)
    ensures var s' := Next(Execute(s, acts).value, CallUnlock(u, l));
      Owns(s', t, l) && t < |s'.threads| && s'.threads[t].runState == Running
  {
    QueuePosition(s, acts, t, l, k);
    var s' := Execute(s, acts).value;
    assert LockOk(s', l);
    StepPosition(s', CallUnlock(u, l), t, l, 0);
  }

  // ---------------------------------------------------------------- why only owners may unlock

  /**
    `unlock` does not look at who calls it.  The invariant survives exactly when the owner is not
    itself inside a call that needs this lock - which an owner that calls `unlock` never is.
   */
  lemma ForeignUnlock(s: State, l: nat, t: nat)
    requires Inv(s) && l < |s.locks| && LockOk(s, l) && s.locks[l].owner == Some(t)
    ensures Inv(HandOff(s, l)) <==> !NeedsLock(s.pcs[t], l)
  {
    assert ThreadOk(s, t);
    if NeedsLock(s.pcs[t], l) {
      BrokenPromise(s, l, t);
    } else {
      KeptPromise(s, l, t);
    }
  }

  lemma BrokenPromise(s: State, l: nat, t: nat)
    requires Inv(s) && l < |s.locks| && LockOk(s, l) && s.locks[l].owner == Some(t)
    requires t < |s.threads| && NeedsLock(s.pcs[t], l)
    ensures !Inv(HandOff(s, l))
  {
    var s' := HandOff(s, l);
    assert ThreadOk(s, t);
    assert s'.pcs[t] == s.pcs[t] && !Owns(s', t, l);
    assert Sized(s') ==> !ThreadOk(s', t);
  }

  lemma KeptPromise(s: State, l: nat, t: nat)
    requires Inv(s) && l < |s.locks| && LockOk(s, l) && s.locks[l].owner == Some(t)
    requires t < |s.threads| && !NeedsLock(s.pcs[t], l)
    ensures Inv(HandOff(s, l))
  {
    var s' := HandOff(s, l);
    forall k: nat | k < |s'.locks| ensures LockOk(s', k) { assert LockOk(s, k); }
    forall u: nat | u < |s'.threads| ensures ThreadOk(s', u) { assert ThreadOk(s, u); }
  }

  /** The thread's call relies on holding, or being handed, this lock. */
  predicate NeedsLock(pc: Pc, l: nat) {
    match pc
    case Outside => false
    case InLock(k) => k == l
    case MonitorLock(m, _) => m == l
    case MonitorCheck(m, _) => m == l
    case MonitorWait(m, _) => m == l
  }
}
