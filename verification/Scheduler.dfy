/**
  The timer tick of src/system/scheduler.cpp: two-level round robin, and its fairness.
 */
module Scheduling {
  import opened Arithmetic
  import opened LockSteps

  const MAX_PROC_THREADS := 16

  datatype Proc = Proc(threadIndex: nat, numRunning: nat, threads: seq<RunState>)

  datatype Sched = Sched(procId: nat, procs: seq<Proc>)

  predicate Valid(s: Sched) {
    && s.procId < |s.procs|
    && forall k :: 0 <= k < |s.procs| ==>
         |s.procs[k].threads| == MAX_PROC_THREADS && s.procs[k].threadIndex < MAX_PROC_THREADS
  }

  /** How many steps forward, 1 to n, lead from `a` to `b` around a ring of n. */
  function Ahead(a: nat, b: nat, n: nat): nat
    requires a < n && b < n
  {
    if b > a then b - a else b - a + n
  }

  /** `i` steps forward. */
  function Forward(a: nat, i: nat, n: nat): nat
    requires n > 0
  {
    (a + i) % n
  }

  lemma Around(a: nat, i: nat, n: nat)
    requires a < n && 1 <= i <= n
    ensures Forward(a, i, n) < n && Ahead(a, Forward(a, i, n), n) == i
  {
    if a + i < n {
      ResidueSmall(a + i, n);
    } else {
      ResiduesRepeat(a + i - n, n);
      ResidueSmall(a + i - n, n);
    }
  }

  lemma AroundInverse(a: nat, b: nat, n: nat)
    requires a < n && b < n
    ensures 1 <= Ahead(a, b, n) <= n && Forward(a, Ahead(a, b, n), n) == b
  {
    ResidueSmall(b, n);
    ResiduesRepeat(b, n);
  }

  // ---------------------------------------------------------------- what a tick chooses

  /** The nearest other process ahead with running threads, or the kernel. */
  ghost predicate ChosenProc(s: Sched, pid: nat)
    requires Valid(s)
  {
    var n := |s.procs|;
    && pid < n
    && (forall q :: 0 <= q < n && q != s.procId && s.procs[q].numRunning > 0 ==>
          pid != s.procId && s.procs[pid].numRunning > 0 && Ahead(s.procId, pid, n) <= Ahead(s.procId, q, n))
    && (pid == 0 || (pid != s.procId && s.procs[pid].numRunning > 0))
  }

  ghost predicate AnyRunning(p: Proc)
    requires |p.threads| == MAX_PROC_THREADS
  {
    exists t :: 0 <= t < MAX_PROC_THREADS && p.threads[t] == Running
  }

  /** The nearest running thread ahead, the present one last; without any, the present one or the idle thread. */
  ghost predicate ChosenThread(p: Proc, kernel: bool, tid: nat)
    requires |p.threads| == MAX_PROC_THREADS && p.threadIndex < MAX_PROC_THREADS
  {
    && tid < MAX_PROC_THREADS
    && (forall t :: 0 <= t < MAX_PROC_THREADS && p.threads[t] == Running ==>
         p.threads[tid] == Running
         && Ahead(p.threadIndex, tid, MAX_PROC_THREADS) <= Ahead(p.threadIndex, t, MAX_PROC_THREADS))
    && (!AnyRunning(p) ==> tid == if kernel then 0 else p.threadIndex)
  }

  /** The chosen process before and after: its next thread, and no count when none runs. */
  ghost predicate ThreadTick(p: Proc, p': Proc, kernel: bool)
    requires |p.threads| == MAX_PROC_THREADS && p.threadIndex < MAX_PROC_THREADS
  {
    && ChosenThread(p, kernel, p'.threadIndex)
    && p'.threads == p.threads
    && p'.numRunning == if AnyRunning(p) then p.numRunning else 0
  }

  /** One tick: choose a process, then one of its threads; a process without any loses its count. */
  ghost predicate Tick(s: Sched, s': Sched)
    requires Valid(s)
  {
    && Valid(s') && |s'.procs| == |s.procs|
    && ChosenProc(s, s'.procId)
    && ThreadTick(s.procs[s'.procId], s'.procs[s'.procId], s'.procId == 0)
    && forall k :: 0 <= k < |s.procs| && k != s'.procId ==> s'.procs[k] == s.procs[k]
  }

  // ---------------------------------------------------------------- the code

  class Scheduler {
    var procId: nat
    var procs: seq<Proc>

    ghost function View(): Sched
      reads this
    {
      Sched(procId, procs)
    }

    method GetNextProc() returns (pid: nat)
      requires Valid(View())
      ensures ChosenProc(View(), pid)
    {
      var n := |procs|;
      for i := 1 to n
        invariant forall j :: 1 <= j < i ==> procs[Forward(procId, j, n)].numRunning == 0
      {
        Around(procId, i, n);
        var next := Forward(procId, i, n);
        if procs[next].numRunning > 0 {
          NearestProc(View(), i);
          return next;
        }
      }
      NearestProc(View(), n);
      return 0;
    }

    method GetNextThread() returns (tid: nat)
      requires Valid(View())
      modifies this`procs
      ensures Valid(View()) && |procs| == |old(procs)|
      ensures ChosenThread(old(procs[procId]), procId == 0, tid)
      ensures procs ==
        old(if AnyRunning(procs[procId]) then procs else procs[procId := procs[procId].(numRunning := 0)])
    {
      var p := procs[procId];
      var start := 1 + p.threadIndex;
      for i := start to start + MAX_PROC_THREADS
        invariant forall j :: 1 <= j < i - p.threadIndex ==>
          p.threads[Forward(p.threadIndex, j, MAX_PROC_THREADS)] != Running
      {
        var next := i % MAX_PROC_THREADS;
        assert next == Forward(p.threadIndex, i - p.threadIndex, MAX_PROC_THREADS);
        if p.threads[next] == Running {
          NearestThread(p, i - p.threadIndex);
          return next;
        }
      }
      NearestThread(p, MAX_PROC_THREADS + 1);
      procs := procs[procId := p.(numRunning := 0)];
      if procId == 0 { return 0; }
      return p.threadIndex;
    }

    /** `timer_interrupt`, without the notifications it sends on its way. */
    method TimerInterrupt()
      requires Valid(View())
      modifies this
      ensures Tick(old(View()), View())
    {
      var pid := GetNextProc();
      procId := pid;
      var tid := GetNextThread();
      procs := procs[procId := procs[procId].(threadIndex := tid)];
    }
  }

  lemma NearestProc(s: Sched, i: nat)
    requires Valid(s) && 1 <= i <= |s.procs|
    requires forall j :: 1 <= j < i ==> s.procs[Forward(s.procId, j, |s.procs|)].numRunning == 0
    requires i < |s.procs| ==> s.procs[Forward(s.procId, i, |s.procs|)].numRunning > 0
    ensures ChosenProc(s, if i < |s.procs| then Forward(s.procId, i, |s.procs|) else 0)
  {
    var n := |s.procs|;
    Around(s.procId, i, n);
    forall q | 0 <= q < n && q != s.procId && s.procs[q].numRunning > 0 ensures i < n && i <= Ahead(s.procId, q, n) {
      AroundInverse(s.procId, q, n);
      assert Ahead(s.procId, q, n) < n;
    }
  }

  lemma NearestThread(p: Proc, i: nat)
    requires |p.threads| == MAX_PROC_THREADS && p.threadIndex < MAX_PROC_THREADS && 1 <= i <= MAX_PROC_THREADS + 1
    requires forall j :: 1 <= j < i ==> p.threads[Forward(p.threadIndex, j, MAX_PROC_THREADS)] != Running
    requires i <= MAX_PROC_THREADS ==> p.threads[Forward(p.threadIndex, i, MAX_PROC_THREADS)] == Running
    ensures i <= MAX_PROC_THREADS ==>
      AnyRunning(p) && forall kernel :: ChosenThread(p, kernel, Forward(p.threadIndex, i, MAX_PROC_THREADS))
    ensures i > MAX_PROC_THREADS ==> !AnyRunning(p)
  {
    if i <= MAX_PROC_THREADS { Around(p.threadIndex, i, MAX_PROC_THREADS); }
    forall t | 0 <= t < MAX_PROC_THREADS && p.threads[t] == Running
      ensures i <= MAX_PROC_THREADS && i <= Ahead(p.threadIndex, t, MAX_PROC_THREADS)
    {
      AroundInverse(p.threadIndex, t, MAX_PROC_THREADS);
    }
  }

  // ---------------------------------------------------------------- fairness

  /**
    Between two ticks anything may happen to the other threads and counts, as long as thread `t` of
    process `p` is left running and the count of `p` positive.
   */
  ghost predicate Between(s: Sched, e: Sched, p: nat, t: nat) {
    && Valid(s) && Valid(e)
    && e.procId == s.procId && |e.procs| == |s.procs|
    && (forall k :: 0 <= k < |s.procs| ==> e.procs[k].threadIndex == s.procs[k].threadIndex)
    && p < |e.procs| && t < MAX_PROC_THREADS
    && e.procs[p].numRunning > 0 && e.procs[p].threads[t] == Running
  }

  /** Ticks that can pass before (p, t) is selected: the process level counts within the thread level. */
  function Rank(s: Sched, p: nat, t: nat): nat
    requires Valid(s) && p < |s.procs| && t < MAX_PROC_THREADS
  {
    (Ahead(s.procs[p].threadIndex, t, MAX_PROC_THREADS) - 1) * |s.procs| + Ahead(s.procId, p, |s.procs|)
  }

  predicate Selected(s: Sched, p: nat, t: nat) {
    s.procId == p && p < |s.procs| && s.procs[p].threadIndex == t
  }

  lemma RankDecreases(s: Sched, e: Sched, s': Sched, p: nat, t: nat)
    requires Between(s, e, p, t) && Tick(e, s')
    ensures Selected(s', p, t) || Rank(s', p, t) < Rank(s, p, t)
  {
    var n := |s.procs|;
    var dt := Ahead(s.procs[p].threadIndex, t, MAX_PROC_THREADS);
    var dt' := Ahead(s'.procs[p].threadIndex, t, MAX_PROC_THREADS);
    var dp, dp' := Ahead(s.procId, p, n), Ahead(s'.procId, p, n);
    if s'.procId == p {
      ThreadLevel(e.procs[p], p == 0, s'.procs[p].threadIndex, t);
      if dt' < dt { Lexicographic(n, dt, dt', dp, dp'); }
    } else {
      assert dt' == dt && dp' < dp by { assert s'.procs[p] == e.procs[p]; }
    }
  }

  /** Choosing a thread brings `t` nearer, unless it is `t` that is chosen. */
  lemma ThreadLevel(p: Proc, kernel: bool, tid: nat, t: nat)
    requires |p.threads| == MAX_PROC_THREADS && p.threadIndex < MAX_PROC_THREADS && t < MAX_PROC_THREADS
    requires ChosenThread(p, kernel, tid) && p.threads[t] == Running
    ensures tid == t || Ahead(tid, t, MAX_PROC_THREADS) < Ahead(p.threadIndex, t, MAX_PROC_THREADS)
  {
  }

  lemma Lexicographic(n: nat, dt: nat, dt': nat, dp: nat, dp': nat)
    requires dt' < dt && 1 <= dp && dp' <= n
    ensures (dt' - 1) * n + dp' < (dt - 1) * n + dp
  {
    AtLeastOnce(n, dt - dt');
    Distributes(n, dt' - 1, dt - dt');
  }

  lemma Distributes(n: int, a: int, b: int)
    ensures (a + b) * n == a * n + n * b
  {
  }

  lemma RankBound(s: Sched, p: nat, t: nat)
    requires Valid(s) && p < |s.procs| && t < MAX_PROC_THREADS
    ensures 1 <= Rank(s, p, t) <= |s.procs| * MAX_PROC_THREADS
  {
    var dt := Ahead(s.procs[p].threadIndex, t, MAX_PROC_THREADS);
    assert 0 <= (dt - 1) * |s.procs| <= (MAX_PROC_THREADS - 1) * |s.procs|;
  }

  /**
    Fairness.  Along any ticks, with anything in between that leaves thread t of process p running
    and its process's count positive, that thread is selected within the rank of the first state,
    which is at most the number of processes times MAX_PROC_THREADS.
   */
  lemma {:induction false} SelectedWithin(states: seq<Sched>, envs: seq<Sched>, p: nat, t: nat) returns (i: nat)
    requires |states| == |envs| + 1
    requires forall j :: 0 <= j < |envs| ==> Between(states[j], envs[j], p, t) && Tick(envs[j], states[j + 1])
    requires Valid(states[0]) && p < |states[0].procs| && t < MAX_PROC_THREADS
    requires |envs| >= Rank(states[0], p, t)
    ensures Rank(states[0], p, t) <= |states[0].procs| * MAX_PROC_THREADS
    ensures 1 <= i <= Rank(states[0], p, t) && i < |states| && Selected(states[i], p, t)
    decreases |envs|
  {
    RankBound(states[0], p, t);
    assert Between(states[0], envs[0], p, t) && Tick(envs[0], states[1]);
    RankDecreases(states[0], envs[0], states[1], p, t);
    if Selected(states[1], p, t) {
      i := 1;
    } else {
      var rest, later := states[1..], envs[1..];
      forall j | 0 <= j < |later| ensures Between(rest[j], later[j], p, t) && Tick(later[j], rest[j + 1]) {
        assert Between(states[j + 1], envs[j + 1], p, t) && Tick(envs[j + 1], states[j + 2]);
      }
      var k := SelectedWithin(rest, later, p, t);
      i := k + 1;
    }
  }
}
