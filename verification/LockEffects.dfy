/**
  What each step of the locks and monitors changes for owners, queues, signals and run states, and
  that nothing else changes them; then what this means over runs.
 */
module LockEffects {
  import opened Options
  import opened LockSteps
  import opened LockRuns

  /** By action `a` thread `t` asks for lock `l`, in lock or in monitor. */
  predicate AsksFor(a: Action, t: nat, l: nat) {
    (a.CallLock? && a.t == t && a.l == l) || (a.CallMonitor? && a.t == t && a.m == l)
  }

  predicate Asks(a: Action, l: nat) {
    (a.CallLock? && a.l == l) || (a.CallMonitor? && a.m == l)
  }

  predicate Releases(a: Action, l: nat) {
    a.CallUnlock? && a.l == l
  }

  /** Free, or already the caller's own. */
  predicate Open(s: State, t: nat, l: nat)
    requires l < |s.locks|
  {
    s.locks[l].owner == None || s.locks[l].owner == Some(t)
  }

  // ---------------------------------------------------------------- owners and queues

  /**
    A lock changes hands only by a thread asking for it while it is open, and by an unlock: then to
    the first in its queue, or to nobody exactly when the queue is empty.  The queue grows at its end
    by whoever asks in vain, and shrinks at its front by unlocks.
   */
  lemma OwnerStep(s: State, a: Action, l: nat)
    requires Inv(s) && Enabled(s, a) && l < |s.locks|
    ensures var s' := Next(s, a);
      var owner, q := s.locks[l].owner, s.queues[l];
      && |s'.locks| == |s.locks| && |s'.queues| == |s'.locks|
      && (Releases(a, l) ==>
        && s'.locks[l].owner == (if q == [] then None else Some(q[0]))
        && s'.queues[l] == (if q == [] then [] else q[1..]))
      && (Asks(a, l) ==>
        && s'.locks[l].owner == (if Open(s, a.t, l) then Some(a.t) else owner)
        && s'.queues[l] == (if Open(s, a.t, l) then q else q + [a.t]))
      && (!Releases(a, l) && !Asks(a, l) ==> s'.locks[l].owner == owner && s'.queues[l] == q)
  {
    assert LockOk(s, l);
    match a
    case CallUnlock(_, m) => assert LockOk(s, m);
    case CallLock(_, m) => assert LockOk(s, m);
    case CallMonitor(_, m, _) => assert LockOk(s, m);
    case Resume(u) => assert ThreadOk(s, u);
    case Notify(m, _) => assert LockOk(s, m);
    case _ =>
  }

  // ---------------------------------------------------------------- who runs

  /** The step puts the running thread `t` to sleep: it asks for a lock that is not open, or finds no signal. */
  predicate PutsToSleep(s: State, a: Action, t: nat)
    requires Inv(s) && Enabled(s, a) && t < |s.threads|
  {
    match a
    case CallLock(u, l) => u == t && !Open(s, t, l)
    case CallMonitor(u, m, _) => u == t && !Open(s, t, m)
    case Resume(u) =>
      assert ThreadOk(s, u);
      u == t && s.pcs[t].MonitorCheck? && s.locks[s.pcs[t].m].signal <= 0
    case _ => false
  }

  /** The step wakes `t`: an unlock with `t` first in the queue, or a notification that leaves `t` a signal. */
  predicate Wakes(s: State, a: Action, t: nat)
    requires Inv(s) && Enabled(s, a) && t < |s.threads|
  {
    match a
    case CallUnlock(_, l) => s.queues[l] != [] && s.queues[l][0] == t
    case Notify(m, diff) => s.locks[m].signal + diff > 0 && s.pcs[t].MonitorWait? && s.pcs[t].m == m
    case _ => false
  }

  /** Threads fall asleep, wake up and are born by exactly these steps. */
  lemma RunStateStep(s: State, a: Action, t: nat)
    requires Inv(s) && Enabled(s, a) && t < |s.threads|
    ensures var s' := Next(s, a);
      && |s'.threads| == |s.threads|
      && s'.threads[t].runState ==
        if PutsToSleep(s, a, t) then Waiting
        else if Wakes(s, a, t) || a == Spawn(t) then Running
        else s.threads[t].runState
  {
    assert ThreadOk(s, t);
    match a
    case CallUnlock(_, m) => assert LockOk(s, m);
    case CallLock(_, m) => assert LockOk(s, m);
    case CallMonitor(_, m, _) => assert LockOk(s, m);
    case Resume(u) => assert ThreadOk(s, u);
    case Notify(m, _) => assert LockOk(s, m); if s.locks[m].owner.Some? { assert ThreadOk(s, s.locks[m].owner.value); }
    case _ =>
  }

  /**
    Where a call stands after a step: lock and monitor get past an open lock at once and past any other
    only as its owner; monitor then blocks exactly when it finds no positive signal.
   */
  lemma CallStep(s: State, a: Action, t: nat)
    requires Inv(s) && Enabled(s, a) && t < |s.threads|
    ensures var s', pc := Next(s, a), s.pcs[t];
      && |s'.pcs| == |s.pcs|
      && (a.CallLock? && a.t == t ==> s'.pcs[t] == if Open(s, t, a.l) then Outside else InLock(a.l))
      && (a.CallMonitor? && a.t == t ==>
        s'.pcs[t] == if Open(s, t, a.m) then MonitorCheck(a.m, a.diff) else MonitorLock(a.m, a.diff))
      && (a == Resume(t) ==>
        match pc
        case InLock(l) => Owns(s', t, l) && s'.pcs[t] == Outside
        case MonitorLock(m, diff) => Owns(s', t, m) && s'.pcs[t] == MonitorCheck(m, diff)
        case MonitorCheck(m, diff) =>
          && Owns(s, t, m) && Owns(s', t, m)
          && s'.pcs[t] == if s.locks[m].signal <= 0 then MonitorWait(m, diff) else Outside
        case MonitorWait(m, _) => Owns(s', t, m) && s'.pcs[t] == Outside
        case Outside => false)
      && (!(a.CallLock? && a.t == t) && !(a.CallMonitor? && a.t == t) && a != Resume(t) ==> s'.pcs[t] == pc)
  {
    assert ThreadOk(s, t);
    match a
    case CallUnlock(_, m) => assert LockOk(s, m);
    case CallLock(_, m) => assert LockOk(s, m);
    case CallMonitor(_, m, _) => assert LockOk(s, m);
    case Resume(u) => assert ThreadOk(s, u);
    case Notify(m, _) => assert LockOk(s, m);
    case _ =>
  }

  // ---------------------------------------------------------------- signals

  /** Thread `t` takes the signal of `m`: it goes on from monitor's check with a signal there, or from its wait. */
  predicate Takes(s: State, a: Action, m: nat)
    requires Inv(s) && Enabled(s, a) && m < |s.locks|
  {
    a.Resume? && match s.pcs[a.t]
    case MonitorCheck(k, _) => k == m && s.locks[m].signal > 0
    case MonitorWait(k, _) => k == m
    case _ => false
  }

  /** A signal grows by what notify adds, and shrinks, down to 0 at the lowest, only when monitor takes it. */
  lemma SignalStep(s: State, a: Action, m: nat)
    requires Inv(s) && Enabled(s, a) && m < |s.locks|
    ensures var s', signal := Next(s, a), s.locks[m].signal;
      && |s'.locks| == |s.locks|
      && ((a.Notify? || a.AddSignal?) && a.m == m ==> s'.locks[m].signal == signal + a.diff)
      && (Takes(s, a, m) ==>
        var diff := s.pcs[a.t].diff;
        && s'.pcs == s.pcs[a.t := Outside]
        && (signal >= diff ==> s'.locks[m].signal == signal - diff)
        && (signal <= diff ==> s'.locks[m].signal == 0))
      && (!((a.Notify? || a.AddSignal?) && a.m == m) && !Takes(s, a, m) ==> s'.locks[m].signal == signal)
  {
    assert LockOk(s, m);
    match a
    case CallUnlock(_, l) => assert LockOk(s, l);
    case CallLock(_, l) => assert LockOk(s, l);
    case CallMonitor(_, l, _) => assert LockOk(s, l);
    case Resume(u) => assert ThreadOk(s, u);
    case Notify(l, _) => assert LockOk(s, l);
    case _ =>
  }

  // ---------------------------------------------------------------- whole runs

  /** An owner stays the owner until the lock is unlocked. */
  lemma {:induction false} OwnerStays(s: State, acts: seq<Action>, t: nat, l: nat)
    requires Inv(s) && Execute(s, acts).Some? && l < |s.locks| && s.locks[l].owner == Some(t)
    requires forall i :: 0 <= i < |acts| ==> !Releases(acts[i], l)
    ensures Owns(Execute(s, acts).value, t, l)
    decreases |acts|
  {
    if acts != [] {
      StepInv(s, acts[0]);
      OwnerStep(s, acts[0], l);
      OwnerStays(Next(s, acts[0]), acts[1..], t, l);
    }
  }

  /** A lock nobody owns and nobody asks for stays free. */
  lemma {:induction false} FreeStays(s: State, acts: seq<Action>, l: nat)
    requires Inv(s) && Execute(s, acts).Some? && l < |s.locks| && s.locks[l].owner == None
    requires forall i :: 0 <= i < |acts| ==> !Asks(acts[i], l)
    ensures l < |Execute(s, acts).value.locks| && Execute(s, acts).value.locks[l].owner == None
    decreases |acts|
  {
    if acts != [] {
      assert LockOk(s, l);
      StepInv(s, acts[0]);
      OwnerStep(s, acts[0], l);
      FreeStays(Next(s, acts[0]), acts[1..], l);
    }
  }

  /** A lock released with nobody waiting for it goes to whoever asks next, at once and without sleeping. */
  lemma ReleasedIsFree(s: State, t: nat, l: nat, acts: seq<Action>, u: nat)
    requires Inv(s) && Enabled(s, CallUnlock(t, l)) && s.queues[l] == []
    requires Execute(s, [CallUnlock(t, l)] + acts).Some?
    requires forall i :: 0 <= i < |acts| ==> !Asks(acts[i], l)
    requires Enabled(Execute(s, [CallUnlock(t, l)] + acts).value, CallLock(u, l))
    ensures var s' := Next(Execute(s, [CallUnlock(t, l)] + acts).value, CallLock(u, l));
      Owns(s', u, l) && u < |s'.threads| && |s'.pcs| == |s'.threads|
      && s'.threads[u].runState == Running && s'.pcs[u] == Outside
  {
    var all := [CallUnlock(t, l)] + acts;
    assert all[1..] == acts;
    StepInv(s, all[0]);
    OwnerStep(s, all[0], l);
    FreeStays(Next(s, all[0]), acts, l);
    var end := Execute(s, all).value;
    assert LockOk(end, l);
  }
}
