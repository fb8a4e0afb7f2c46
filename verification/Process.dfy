/**
  `Process::lock`, `unlock`, `monitor` and `notify` as the source writes them: assignments and a
  walk along `lock_next`, proved to make the steps of `LockSteps`.
 */
module ProcessCode {
  import opened Options
  import opened LockSteps

  class Process {
    var threads: seq<Thread>
    var locks: seq<Lock>
    ghost var pcs: seq<Pc>
    ghost var queues: seq<seq<nat>>

    ghost function View(): State
      reads this
    {
      State(threads, locks, pcs, queues)
    }

    ghost predicate Valid()
      reads this
    {
      Inv(View())
    }

    constructor (threads: seq<Thread>, numLocks: nat)
      requires forall t :: 0 <= t < |threads| ==>
        threads[t].runState != Waiting && threads[t].signalWait == None && threads[t].lockNext == None
      ensures Valid() && this.threads == threads && |locks| == numLocks
    {
      this.threads := threads;
      locks := seq(numLocks, _ => Lock(None, None, 0));
      pcs := seq(|threads|, _ => Outside);
      queues := seq(numLocks, _ => []);
    }

    /**
      `lock` up to the point where it returns or yields.  `got` and `queued` say where the caller
      stands then.
     */
    method LockOrQueue(me: nat, l: nat, ghost got: Pc, ghost queued: Pc) returns (acquired: bool)
      requires Valid() && me < |threads| && l < |locks| && threads[me].runState == Running && pcs[me] == Outside
      requires got == Outside || (got.MonitorCheck? && got.m == l)
      requires WaitsFor(queued, l)
      modifies this
      ensures old(LockOk(View(), l)) && View() == old(Acquire(View(), me, l, got, queued))
      ensures Valid()
      ensures acquired <==> old(locks[l].owner) == None || old(locks[l].owner) == Some(me)
      ensures l < |locks| && locks[l].owner == (if acquired then Some(me) else old(locks[l].owner))
      ensures l < |queues| && queues[l] == (if acquired then old(queues[l]) else old(queues[l]) + [me])
    {
      ghost var s := View();
      assert LockOk(s, l) && ThreadOk(s, me);
      AcquireInv(s, me, l, got, queued);
      NotQueuedOutside(s, me, l);
      hide Inv;
      if locks[l].owner == Some(me) || locks[l].owner == None {
        locks := locks[l := locks[l].(owner := Some(me))];
        pcs := pcs[me := got];
        return true;
      }
      threads := threads[me := threads[me].(lockNext := None)];
      if locks[l].next == None {
        locks := locks[l := locks[l].(next := Some(me))];
      } else {
        ghost var q := queues[l];
        var node := locks[l].next.value;
        ghost var i := 0;
        while threads[node].lockNext != None
          invariant 0 <= i < |q| && node == q[i] && node < |threads| && node != me
          invariant threads == s.threads[me := s.threads[me].(lockNext := None)]
          invariant queues == s.queues && locks == s.locks && pcs == s.pcs
          decreases |q| - i
        {
          assert s.threads[q[i]].lockNext == At(q, i + 1);
          node := threads[node].lockNext.value;
          i := i + 1;
        }
        assert s.threads[q[i]].lockNext == At(q, i + 1);
        threads := threads[node := threads[node].(lockNext := Some(me))];
      }
      threads := threads[me := threads[me].(runState := Waiting)];
      queues := queues[l := queues[l] + [me]];
      pcs := pcs[me := queued];
      assert threads == Acquire(s, me, l, got, queued).threads;
      return false;
    }

    method Unlock(me: nat, l: nat)
      requires Valid() && me < |threads| && l < |locks| && pcs[me] == Outside && locks[l].owner == Some(me)
      modifies this
      ensures old(LockOk(View(), l)) && View() == old(HandOff(View(), l))
      ensures Valid()
      ensures l < |locks| && locks[l].owner == old(if queues[l] == [] then None else Some(queues[l][0]))
      ensures l < |queues| && queues[l] == old(if queues[l] == [] then [] else queues[l][1..])
    {
      ghost var s := View();
      assert LockOk(s, l);
      HandOffInv(s, me, l);
      hide Inv;
      locks := locks[l := locks[l].(owner := locks[l].next)];
      if locks[l].owner != None {
        var t := locks[l].owner.value;
        assert s.threads[s.queues[l][0]].lockNext == At(s.queues[l], 1);
        threads := threads[t := threads[t].(runState := Running)];
        locks := locks[l := locks[l].(next := threads[t].lockNext)];
        threads := threads[t := threads[t].(lockNext := None)];
        queues := queues[l := queues[l][1..]];
      }
    }

    /** `lock`: true when it returns at once; otherwise the thread has yielded, queued. */
    method CallLock(me: nat, l: nat) returns (acquired: bool)
      requires Valid() && Enabled(View(), LockSteps.CallLock(me, l))
      modifies this
      ensures Valid() && View() == old(Next(View(), LockSteps.CallLock(me, l)))
      ensures acquired <==> old(locks[l].owner) == None || old(locks[l].owner) == Some(me)
      ensures acquired <==> locks[l].owner == Some(me)
    {
      acquired := LockOrQueue(me, l, Outside, InLock(l));
    }

    /** `monitor`, from its call to `lock`: true when the lock was free or already held. */
    method CallMonitor(me: nat, m: nat, diff: int) returns (acquired: bool)
      requires Valid() && Enabled(View(), LockSteps.CallMonitor(me, m, diff))
      modifies this
      ensures Valid() && View() == old(Next(View(), LockSteps.CallMonitor(me, m, diff)))
      ensures acquired <==> old(locks[m].owner) == None || old(locks[m].owner) == Some(me)
      ensures acquired <==> locks[m].owner == Some(me)
    {
      acquired := LockOrQueue(me, m, MonitorCheck(m, diff), MonitorLock(m, diff));
    }

    /** `monitor`, behind `lock`: block on a signal that is not positive, or take it. */
    method CheckSignal(me: nat, m: nat, diff: int) returns (blocked: bool)
      requires Valid() && me < |threads| && threads[me].runState == Running && pcs[me] == MonitorCheck(m, diff)
      modifies this
      ensures Valid() && View() == old(Next(View(), Resume(me)))
      ensures blocked <==> threads[me].runState == Waiting
      ensures !blocked ==> m < |locks| && locks[m].owner == Some(me) && 0 <= locks[m].signal
    {
      ghost var s := View();
      assert ThreadOk(s, me);
      StepInv(s, Resume(me));
      if locks[m].signal <= 0 {
        threads := threads[me := threads[me].(signalWait := Some(m))];
        threads := threads[me := threads[me].(runState := Waiting)];
        pcs := pcs[me := MonitorWait(m, diff)];
        assert threads == Continue(s, me).threads;
        return true;
      }
      TakeIt(me, m, diff);
      return false;
    }

    /** `monitor`, woken: take the signal. */
    method AfterWait(me: nat, m: nat, diff: int)
      requires Valid() && me < |threads| && threads[me].runState == Running && pcs[me] == MonitorWait(m, diff)
      modifies this
      ensures Valid() && View() == old(Next(View(), Resume(me)))
      ensures m < |locks| && locks[m].owner == Some(me) && 0 <= locks[m].signal
    {
      assert ThreadOk(View(), me);
      StepInv(View(), Resume(me));
      TakeIt(me, m, diff);
    }

    method TakeIt(me: nat, m: nat, diff: int)
      requires me < |pcs| && m < |locks|
      modifies this
      ensures View() == old(TakeSignal(View(), me, m, diff)) && 0 <= locks[m].signal
    {
      locks := locks[m := locks[m].(signal := locks[m].signal - diff)];
      // clamp to 0
      if locks[m].signal < 0 { locks := locks[m := locks[m].(signal := 0)]; }
      pcs := pcs[me := Outside];
      ghost var lock := old(locks[m]);
      assert locks == old(locks)[m := lock.(signal := Taken(lock.signal, diff))];
    }

    method Notify(m: nat, diff: int)
      requires Valid() && m < |locks|
      modifies this
      ensures Valid() && View() == old(Next(View(), LockSteps.Notify(m, diff)))
    {
      ghost var s := View();
      assert LockOk(s, m);
      StepInv(s, LockSteps.Notify(m, diff));
      hide Inv;
      locks := locks[m := locks[m].(signal := locks[m].signal + diff)];
      if locks[m].signal > 0 {
        var owner := locks[m].owner;
        if owner != None && threads[owner.value].signalWait == Some(m) {
          threads := threads[owner.value := threads[owner.value].(signalWait := None)];
          threads := threads[owner.value := threads[owner.value].(runState := Running)];
          assert threads == Wake(s, m, diff).threads;
        }
      }
    }
  }
}
