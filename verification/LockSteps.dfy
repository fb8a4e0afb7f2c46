/**
  Locks and monitors of src/system/process.cpp as a transition system: what each call does between
  two points where the thread can lose the processor.

  Threads and locks are named by index.  Every lock carries a signal; a plain lock never uses it.
 */
module LockSteps {
  import opened Options

  datatype RunState = Null | Running | Waiting | Done

  datatype Thread = Thread(runState: RunState, lockNext: Option<nat>, signalWait: Option<nat>)

  datatype Lock = Lock(owner: Option<nat>, next: Option<nat>, signal: int)

  /** Where a thread stands inside the kernel's calls. */
  datatype Pc =
    | Outside
    | InLock(l: nat)                    // queued by lock(), or woken and about to return from it
    | MonitorLock(m: nat, diff: int)    // the same, called from monitor()
    | MonitorCheck(m: nat, diff: int)   // holds the lock, about to look at the signal
    | MonitorWait(m: nat, diff: int)    // blocked on the signal, or woken and about to take it

  /** `pcs` says where the threads are, and `queues` is history: who waits for each lock, in order. */
  datatype State = State(threads: seq<Thread>, locks: seq<Lock>, pcs: seq<Pc>, queues: seq<seq<nat>>)

  datatype Action =
    | CallLock(t: nat, l: nat)
    | CallUnlock(t: nat, l: nat)
    | CallMonitor(t: nat, m: nat, diff: int)
    | Resume(t: nat)                    // a thread inside a call goes on
    | Notify(m: nat, diff: int)         // by a thread, or by the scheduler's tick
    | AddSignal(m: nat, diff: int)      // msg_signal changed directly
    | Spawn(t: nat)                     // new_user_thread takes a free slot

  function At(q: seq<nat>, i: int): Option<nat> {
    if 0 <= i < |q| then Some(q[i]) else None
  }

  // ---------------------------------------------------------------- the invariant

  predicate Sized(s: State) {
    |s.pcs| == |s.threads| && |s.queues| == |s.locks|
  }

  /** The queue of a lock is threaded through `next` and `lock_next`. */
  predicate Threaded(threads: seq<Thread>, lock: Lock, q: seq<nat>) {
    && lock.next == At(q, 0)
    && (forall i :: 0 <= i < |q| ==> q[i] < |threads|)
    && (forall i {:trigger threads[q[i]]} :: 0 <= i < |q| ==> threads[q[i]].lockNext == At(q, i + 1))
  }

  predicate WaitsFor(pc: Pc, l: nat) {
    pc == InLock(l) || (pc.MonitorLock? && pc.m == l)
  }

  predicate LockOk(s: State, l: nat)
    requires Sized(s) && l < |s.locks|
  {
    var lock, q := s.locks[l], s.queues[l];
    && Threaded(s.threads, lock, q)
    && (forall i, j :: 0 <= i < j < |q| ==> q[i] != q[j])
    && (lock.owner.None? ==> q == [])
    && (lock.owner.Some? ==> lock.owner.value < |s.threads| && lock.owner.value !in q)
    && (forall i :: 0 <= i < |q| ==> WaitsFor(s.pcs[q[i]], l))
  }

  predicate Owns(s: State, t: nat, l: nat) {
    l < |s.locks| && s.locks[l].owner == Some(t)
  }

  predicate Queued(s: State, t: nat, l: nat)
    requires Sized(s)
  {
    l < |s.locks| && t in s.queues[l]
  }

  predicate ThreadOk(s: State, t: nat)
    requires Sized(s) && t < |s.threads|
  {
    var th := s.threads[t];
    match s.pcs[t]
    case Outside => th.runState != Waiting && th.signalWait.None? && th.lockNext.None?
    case InLock(l) => th.signalWait.None? && AtLock(s, t, l)
    case MonitorLock(m, _) => th.signalWait.None? && AtLock(s, t, m)
    case MonitorCheck(m, _) => Owns(s, t, m) && th.runState == Running && th.signalWait.None? && th.lockNext.None?
    case MonitorWait(m, _) =>
      && Owns(s, t, m) && th.lockNext.None?
      && ((th.runState == Waiting && th.signalWait == Some(m)) || (th.runState == Running && th.signalWait.None?))
  }

  /** Queued and waiting, or woken by the hand-off. */
  predicate AtLock(s: State, t: nat, l: nat)
    requires Sized(s) && t < |s.threads|
  {
    var th := s.threads[t];
    if th.runState == Waiting then Queued(s, t, l)
    else th.runState == Running && Owns(s, t, l) && th.lockNext.None?
  }

  predicate Inv(s: State) {
    && Sized(s)
    && (forall l: nat :: l < |s.locks| ==> LockOk(s, l))
    && (forall t: nat :: t < |s.threads| ==> ThreadOk(s, t))
  }

  // ---------------------------------------------------------------- the steps

  function SetThread(s: State, t: nat, th: Thread): State
    requires t < |s.threads|
  {
    s.(threads := s.threads[t := th])
  }

  function SetPc(s: State, t: nat, pc: Pc): State
    requires t < |s.pcs|
  {
    s.(pcs := s.pcs[t := pc])
  }

  function SetLock(s: State, l: nat, lock: Lock): State
    requires l < |s.locks|
  {
    s.(locks := s.locks[l := lock])
  }

  predicate Enabled(s: State, a: Action)
    requires Sized(s)
  {
    match a
    case CallLock(t, l) => t < |s.threads| && l < |s.locks| && s.threads[t].runState == Running && s.pcs[t] == Outside
    case CallUnlock(t, l) =>
      && t < |s.threads| && l < |s.locks| && s.threads[t].runState == Running && s.pcs[t] == Outside
      && s.locks[l].owner == Some(t)    // only owners unlock
    case CallMonitor(t, m, _) =>
      t < |s.threads| && m < |s.locks| && s.threads[t].runState == Running && s.pcs[t] == Outside
    case Resume(t) => t < |s.threads| && s.threads[t].runState == Running && s.pcs[t] != Outside
    case Notify(m, _) => m < |s.locks|
    case AddSignal(m, _) => m < |s.locks|
    case Spawn(t) => t < |s.threads| && s.threads[t].runState == Null
  }

  /** `lock` by thread `t`: take it, or join the end of the queue; the caller then stands at `then_` or `else_`. */
  function Acquire(s: State, t: nat, l: nat, got: Pc, queued: Pc): State
    requires Sized(s) && t < |s.threads| && l < |s.locks| && LockOk(s, l)
  {
    var lock, q := s.locks[l], s.queues[l];
    if lock.owner == Some(t) || lock.owner == None then
      SetPc(SetLock(s, l, lock.(owner := Some(t))), t, got)
    else
      var waiting := SetThread(s, t, s.threads[t].(lockNext := None, runState := Waiting));
      var linked :=
        if q == [] then SetLock(waiting, l, lock.(next := Some(t)))
        else
          var last := q[|q| - 1];
          SetThread(waiting, last, waiting.threads[last].(lockNext := Some(t)));
      SetPc(linked.(queues := s.queues[l := q + [t]]), t, queued)
  }

  /** `unlock`: hand the lock to the head of the queue. */
  function HandOff(s: State, l: nat): State
    requires Sized(s) && l < |s.locks| && LockOk(s, l)
  {
    var lock, q := s.locks[l], s.queues[l];
    if q == [] then SetLock(s, l, lock.(owner := None))
    else
      var t := q[0];
      var next := s.threads[t].lockNext;
      SetThread(SetLock(s, l, lock.(owner := Some(t), next := next)), t,
                s.threads[t].(runState := Running, lockNext := None))
        .(queues := s.queues[l := q[1..]])
  }

  /** `signal -= diff`, clamped to 0. */
  function Taken(signal: int, diff: int): int {
    if signal - diff < 0 then 0 else signal - diff
  }

  function TakeSignal(s: State, t: nat, m: nat, diff: int): State
    requires t < |s.pcs| && m < |s.locks|
  {
    SetPc(SetLock(s, m, s.locks[m].(signal := Taken(s.locks[m].signal, diff))), t, Outside)
  }

  function Continue(s: State, t: nat): State
    requires Inv(s) && t < |s.threads|
  {
    assert ThreadOk(s, t);
    match s.pcs[t]
    case Outside => s
    case InLock(_) => SetPc(s, t, Outside)
    case MonitorLock(m, diff) =>
      // the bail-out when the lock was not acquired after all
      if s.locks[m].owner != Some(t) then SetPc(s, t, Outside) else SetPc(s, t, MonitorCheck(m, diff))
    case MonitorCheck(m, diff) =>
      if s.locks[m].signal <= 0 then
        SetPc(SetThread(s, t, s.threads[t].(signalWait := Some(m), runState := Waiting)), t, MonitorWait(m, diff))
      else TakeSignal(s, t, m, diff)
    case MonitorWait(m, diff) => TakeSignal(s, t, m, diff)
  }

  function Wake(s: State, m: nat, diff: int): State
    requires m < |s.locks| && (s.locks[m].owner.Some? ==> s.locks[m].owner.value < |s.threads|)
  {
    var s1 := SetLock(s, m, s.locks[m].(signal := s.locks[m].signal + diff));
    var owner := s.locks[m].owner;
    if s1.locks[m].signal > 0 && owner.Some? && s.threads[owner.value].signalWait == Some(m) then
      SetThread(s1, owner.value, s.threads[owner.value].(signalWait := None, runState := Running))
    else s1
  }

  function Next(s: State, a: Action): State
    requires Inv(s) && Enabled(s, a)
  {
    match a
    case CallLock(t, l) => Acquire(s, t, l, Outside, InLock(l))
    case CallUnlock(t, l) => HandOff(s, l)
    case CallMonitor(t, m, diff) => Acquire(s, t, m, MonitorCheck(m, diff), MonitorLock(m, diff))
    case Resume(t) => Continue(s, t)
    case Notify(m, diff) => assert LockOk(s, m); Wake(s, m, diff)
    case AddSignal(m, diff) => SetLock(s, m, s.locks[m].(signal := s.locks[m].signal + diff))
    case Spawn(t) => SetPc(SetThread(s, t, Thread(Running, None, None)), t, Outside)
  }

  // ---------------------------------------------------------------- every step keeps the invariant

  lemma NotQueuedOutside(s: State, t: nat, l: nat)
    requires Inv(s) && t < |s.threads| && l < |s.locks| && !WaitsFor(s.pcs[t], l)
    ensures t !in s.queues[l]
  {
    assert LockOk(s, l);
  }

  lemma AcquireInv(s: State, t: nat, l: nat, got: Pc, queued: Pc)
    requires Inv(s) && t < |s.threads| && l < |s.locks| && s.threads[t].runState == Running && s.pcs[t] == Outside
    requires got == Outside || (got.MonitorCheck? && got.m == l)
    requires WaitsFor(queued, l) && LockOk(s, l)
    ensures Inv(Acquire(s, t, l, got, queued))
  {
    assert ThreadOk(s, t);
    var owner := s.locks[l].owner;
    if owner == Some(t) || owner == None {
      var s' := Acquire(s, t, l, got, queued);
      forall k: nat | k < |s'.locks| ensures LockOk(s', k) { assert LockOk(s, k); NotQueuedOutside(s, t, k); }
      forall u: nat | u < |s'.threads| ensures ThreadOk(s', u) { assert ThreadOk(s, u); }
    } else {
      EnqueueInv(s, t, l, got, queued);
    }
  }

  /** The slow path of `lock`: the queue grows at its end. */
  lemma EnqueueInv(s: State, t: nat, l: nat, got: Pc, queued: Pc)
    requires Inv(s) && t < |s.threads| && l < |s.locks| && s.threads[t].runState == Running && s.pcs[t] == Outside
    requires WaitsFor(queued, l) && LockOk(s, l) && s.locks[l].owner != Some(t) && s.locks[l].owner != None
    ensures Inv(Acquire(s, t, l, got, queued))
  {
    var s' := Acquire(s, t, l, got, queued);
    assert ThreadOk(s, t);
    forall k: nat | k < |s'.locks| ensures LockOk(s', k) {
      assert LockOk(s, k);
      NotQueuedOutside(s, t, k);
      if k == l { EnqueuedLock(s, t, l, got, queued); } else { OtherLock(s, t, l, k); }
    }
    forall u: nat | u < |s'.threads| ensures ThreadOk(s', u) { assert ThreadOk(s, u); }
  }

  lemma EnqueuedLock(s: State, t: nat, l: nat, got: Pc, queued: Pc)
    requires Sized(s) && t < |s.threads| && l < |s.locks| && LockOk(s, l) && t !in s.queues[l]
    requires WaitsFor(queued, l) && s.locks[l].owner != Some(t) && s.locks[l].owner != None
    ensures LockOk(Acquire(s, t, l, got, queued), l)
  {
    var s' := Acquire(s, t, l, got, queued);
    var q, q' := s.queues[l], s'.queues[l];
    forall i | 0 <= i < |q'| ensures s'.threads[q'[i]].lockNext == At(q', i + 1) {
      if i < |q| { assert q'[i] == q[i] && s.threads[q[i]].lockNext == At(q, i + 1); }
    }
  }

  /** No thread is queued twice, so another lock's queue is untouched. */
  lemma OtherLock(s: State, t: nat, l: nat, k: nat)
    requires Inv(s) && l < |s.locks| && k < |s.locks| && k != l
    ensures forall i, j :: 0 <= i < |s.queues[l]| && 0 <= j < |s.queues[k]| ==> s.queues[l][i] != s.queues[k][j]
  {
    assert LockOk(s, l) && LockOk(s, k);
  }

  lemma HandOffInv(s: State, t: nat, l: nat)
    requires Inv(s) && t < |s.threads| && l < |s.locks| && s.pcs[t] == Outside && s.locks[l].owner == Some(t)
    ensures Inv(HandOff(s, l))
  {
    var s' := HandOff(s, l);
    assert LockOk(s, l);
    forall k: nat | k < |s'.locks| ensures LockOk(s', k) { assert LockOk(s, k); }
    forall u: nat | u < |s'.threads| ensures ThreadOk(s', u) { assert ThreadOk(s, u); }
  }

  lemma ContinueInv(s: State, t: nat)
    requires Inv(s) && t < |s.threads| && s.threads[t].runState == Running && s.pcs[t] != Outside
    ensures Inv(Continue(s, t))
  {
    var s' := Continue(s, t);
    assert ThreadOk(s, t);
    forall k: nat | k < |s'.locks| ensures LockOk(s', k) { assert LockOk(s, k); }
    forall u: nat | u < |s'.threads| ensures ThreadOk(s', u) { assert ThreadOk(s, u); }
  }

  lemma WakeInv(s: State, m: nat, diff: int)
    requires Inv(s) && m < |s.locks| && LockOk(s, m)
    ensures Inv(Wake(s, m, diff))
  {
    var s' := Wake(s, m, diff);
    forall k: nat | k < |s'.locks| ensures LockOk(s', k) { assert LockOk(s, k); }
    forall u: nat | u < |s'.threads| ensures ThreadOk(s', u) { assert ThreadOk(s, u); }
  }

  lemma StepInv(s: State, a: Action)
    requires Inv(s) && Enabled(s, a)
    ensures Inv(Next(s, a))
  {
    match a
    case CallLock(t, l) => AcquireInv(s, t, l, Outside, InLock(l));
    case CallUnlock(t, l) => HandOffInv(s, t, l);
    case CallMonitor(t, m, diff) => AcquireInv(s, t, m, MonitorCheck(m, diff), MonitorLock(m, diff));
    case Resume(t) => ContinueInv(s, t);
    case Notify(m, diff) => assert LockOk(s, m); WakeInv(s, m, diff);
    case AddSignal(m, diff) =>
      var s' := Next(s, a);
      forall k: nat | k < |s'.locks| ensures LockOk(s', k) { assert LockOk(s, k); }
      forall u: nat | u < |s'.threads| ensures ThreadOk(s', u) { assert ThreadOk(s, u); }
    case Spawn(t) =>
      var s' := Next(s, a);
      assert ThreadOk(s, t);
      forall k: nat | k < |s'.locks| ensures LockOk(s', k) { assert LockOk(s, k); NotQueuedOutside(s, t, k); }
      forall u: nat | u < |s'.threads| ensures ThreadOk(s', u) { assert ThreadOk(s, u); }
  }
}
