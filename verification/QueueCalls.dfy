/**
  What each call of the ring does when no other thread moves while it runs, as a function of the
  state it starts from; and the proof that the transition system, letting one thread run, gets
  exactly there.
 */
module QueueCalls {
  import opened QueueSteps

  function WithResult(s: State, t: nat, r: Result): State
    requires t < |s.threads|
  {
    Goto(s, t, Idle(r))
  }

  function EnqueueAlone(s: State, t: nat, msg: Message): State
    requires Ordered(s) && t < |s.threads|
  {
    var k := s.locked.tail;
    if k - s.locked.head == s.size then WithResult(s, t, Index(-1))
    else
      WithResult(s.(locked := QueueRange(s.locked.head, k + 1), log := s.log + [msg], phase := s.phase + [Published],
                    slots := s.slots[k % s.size := msg]),
                 t, Index(k))
  }

  /** Where gathering stops: the first free slot from index `k` on, or the end of what is reserved. */
  function GatherStop(s: State, k: nat): (r: nat)
    requires Ordered(s) && k <= s.locked.tail
    ensures k <= r <= s.locked.tail
    ensures forall j :: k <= j < r ==> s.slots[j % s.size].word != 0
    ensures r < s.locked.tail ==> s.slots[r % s.size].word == 0
    decreases s.locked.tail - k
  {
    if k < s.locked.tail && s.slots[k % s.size].word != 0 then GatherStop(s, k + 1) else k
  }

  function GatherAlone(s: State, t: nat): State
    requires Ordered(s) && t < |s.threads|
  {
    if s.safeTailMtx != Free then WithResult(s, t, Found(0))
    else
      var r := GatherStop(s, s.safe.tail);
      WithResult(s.(safe := s.safe.(tail := r)), t, Found(r - s.safe.tail))
  }

  function DequeueAlone(s: State, t: nat, num: nat): State
    requires Ordered(s) && t < |s.threads|
  {
    var len := s.safe.tail - s.safe.head;
    if len == 0 then WithResult(s, t, Taken(QueueRange(0, 0)))
    else
      var r := QueueRange(s.safe.head, s.safe.head + if num > len then len else num);
      WithResult(s.(safe := QueueRange(r.tail, s.safe.tail), phase := Mark(s.phase, r.head, r.tail, Held)), t, Taken(r))
  }

  function ClearSlots(slots: seq<Message>, lo: nat, hi: nat): (r: seq<Message>)
    requires |slots| > 0
    ensures |r| == |slots|
    decreases hi
  {
    if lo >= hi then slots
    else
      var p := ClearSlots(slots, lo, hi - 1);
      p[(hi - 1) % |slots| := p[(hi - 1) % |slots|].(word := 0)]
  }

  function ReleaseAlone(s: State, t: nat, r: QueueRange): State
    requires Ordered(s) && t < |s.threads|
  {
    WithResult(s.(slots := ClearSlots(s.slots, r.head, r.tail), phase := Mark(s.phase, r.head, r.tail, Released)),
               t, NoResult)
  }

  /** Where garbage collection stops: the first slot still in use from index `k` on, or `safe.head`. */
  function CollectStop(s: State, k: nat): (r: nat)
    requires Ordered(s) && k <= s.safe.head
    ensures k <= r <= s.safe.head
    ensures forall j :: k <= j < r ==> s.slots[j % s.size].word == 0
    ensures r < s.safe.head ==> s.slots[r % s.size].word != 0
    decreases s.safe.head - k
  {
    if k < s.safe.head && s.slots[k % s.size].word == 0 then CollectStop(s, k + 1) else k
  }

  function CollectAlone(s: State, t: nat): State
    requires Ordered(s) && t < |s.threads|
  {
    if s.lockedHeadMtx != Free then WithResult(s, t, Ran(0))
    else WithResult(s.(locked := s.locked.(head := CollectStop(s, s.locked.head))), t, Ran(1))
  }

  // ---------------------------------------------------------------- running one thread

  predicate StepsTo(s: State, t: nat, s': State) {
    Inv(s) && Enabled(s, t, Advance) && s' == Next(s, t, Advance)
  }

  /** Thread `t`, running alone, takes the ring from `s` to `s'` in `n` accesses. */
  ghost predicate Runs(s: State, t: nat, n: nat, s': State)
    decreases n
  {
    if n == 0 then s == s' else exists m :: StepsTo(s, t, m) && Runs(m, t, n - 1, s')
  }

  ghost predicate RunsAlone(s: State, t: nat, s': State) {
    exists n: nat :: Runs(s, t, n, s')
  }

  lemma RunsCons(s: State, t: nat, m: State, s': State)
    requires StepsTo(s, t, m) && RunsAlone(m, t, s')
    ensures RunsAlone(s, t, s')
  {
    hide StepsTo;
    var n: nat :| Runs(m, t, n, s');
    assert Runs(s, t, n + 1, s');
  }

  lemma RunsDone(s: State, t: nat)
    ensures RunsAlone(s, t, s)
  {
    assert Runs(s, t, 0, s);
  }

  /** Running alone keeps the invariant. */
  lemma {:induction false} RunsInv(s: State, t: nat, n: nat, s': State)
    requires Inv(s) && Runs(s, t, n, s')
    ensures Inv(s')
    decreases n
  {
    if n > 0 {
      var m :| StepsTo(s, t, m) && Runs(m, t, n - 1, s');
      StepInv(s, t, Advance);
      RunsInv(m, t, n - 1, s');
    }
  }

  lemma RunsAloneInv(s: State, t: nat, s': State)
    requires Inv(s) && RunsAlone(s, t, s')
    ensures Inv(s')
  {
    var n: nat :| Runs(s, t, n, s');
    RunsInv(s, t, n, s');
  }

  lemma Walk(s: State, t: nat)
    requires Inv(s) && Enabled(s, t, Advance)
    ensures Ordered(s) && ThreadOk(s, t) && StepsTo(s, t, Access(s, t))
    ensures Inv(Access(s, t)) && Ordered(Access(s, t)) && ThreadOk(Access(s, t), t)
  {
    StepInv(s, t, Advance);
    assert ThreadOk(s, t) && ThreadOk(Access(s, t), t);
  }

  lemma EnqueueRuns(s: State, t: nat, msg: Message)
    requires Inv(s) && Enabled(s, t, Start(Enqueue(msg)))
    ensures RunsAlone(Begin(s, t, Enqueue(msg)), t, EnqueueAlone(s, t, msg))
    ensures Inv(EnqueueAlone(s, t, msg))
  {
    var s0 := Begin(s, t, Enqueue(msg));
    StepInv(s, t, Start(Enqueue(msg)));
    Walk(s0, t);
    var s1 := Access(s0, t);
    var end := EnqueueAlone(s, t, msg);
    RunsDone(end, t);
    if s.locked.tail - s.locked.head < s.size {
      Walk(s1, t);
      var s2 := Access(s1, t);
      Walk(s2, t);
      assert Access(s2, t) == end;
      RunsCons(s2, t, end, end);
      RunsCons(s1, t, s2, end);
    } else {
      assert s1 == end;
    }
    RunsCons(s0, t, s1, end);
    RunsAloneInv(Begin(s, t, Enqueue(msg)), t, EnqueueAlone(s, t, msg));
  }

  /** A turn of gather's loop that finds a message. */
  lemma GatherTurn(s: State, t: nat, n: nat, c: nat, end: State)
    requires Inv(s) && t < |s.threads| && s.threads[t] == InGather(GatIndex(n, c))
    requires Ordered(s) && s.slots[s.safe.tail % s.size].word != 0
    requires var s' := Goto(s.(safe := s.safe.(tail := s.safe.tail + 1)), t,
                            InGather(if n + 1 < c then GatIndex(n + 1, c) else GatUnlock(n + 1)));
      Inv(s') ==> RunsAlone(s', t, end)
    ensures RunsAlone(s, t, end)
  {
    hide Inv, StepsTo, RunsAlone, ThreadOk;
    Walk(s, t);
    var s1 := Access(s, t);
    Walk(s1, t);
    var s2 := Access(s1, t);
    Walk(s2, t);
    var s3 := Access(s2, t);
    Walk(s3, t);
    var s4 := Access(s3, t);
    assert s4 == Goto(s.(safe := s.safe.(tail := s.safe.tail + 1)), t,
                      InGather(if n + 1 < c then GatIndex(n + 1, c) else GatUnlock(n + 1)));
    RunsCons(s3, t, s4, end);
    RunsCons(s2, t, s3, end);
    RunsCons(s1, t, s2, end);
    RunsCons(s, t, s1, end);
  }

  /** A turn that finds none, and the way out. */
  lemma GatherStops(s: State, t: nat, n: nat, c: nat, end: State)
    requires Inv(s) && t < |s.threads| && s.threads[t] == InGather(GatIndex(n, c))
    requires Ordered(s) && s.slots[s.safe.tail % s.size].word == 0
    requires end == WithResult(s.(safeTailMtx := Free), t, Found(n))
    ensures RunsAlone(s, t, end)
  {
    hide Inv, StepsTo, RunsAlone, ThreadOk;
    Walk(s, t);
    var s1 := Access(s, t);
    Walk(s1, t);
    var s2 := Access(s1, t);
    GatherEnds(s2, t, n, end);
    RunsCons(s1, t, s2, end);
    RunsCons(s, t, s1, end);
  }

  lemma GatherEnds(s: State, t: nat, n: nat, end: State)
    requires Inv(s) && t < |s.threads| && s.threads[t] == InGather(GatUnlock(n))
    requires end == WithResult(s.(safeTailMtx := Free), t, Found(n))
    ensures RunsAlone(s, t, end)
  {
    RunsDone(end, t);
    Walk(s, t);
    RunsCons(s, t, end, end);
  }

  /** Gather's loop, by induction on the turns left. */
  lemma {:induction false} GatherLoopRuns(s: State, t: nat, n: nat, c: nat)
    requires Inv(s) && Ordered(s) && t < |s.threads| && s.threads[t] == InGather(GatIndex(n, c))
    requires n < c && s.safe.tail + (c - n) == s.locked.tail
    ensures var r := GatherStop(s, s.safe.tail);
      RunsAlone(s, t, WithResult(s.(safe := s.safe.(tail := r), safeTailMtx := Free), t, Found(n + r - s.safe.tail)))
    decreases c - n
  {
    hide Inv, RunsAlone, ThreadOk;
    var r := GatherStop(s, s.safe.tail);
    var end := WithResult(s.(safe := s.safe.(tail := r), safeTailMtx := Free), t, Found(n + r - s.safe.tail));
    if s.slots[s.safe.tail % s.size].word == 0 {
      GatherStops(s, t, n, c, end);
    } else {
      var s' := Goto(s.(safe := s.safe.(tail := s.safe.tail + 1)), t,
                     InGather(if n + 1 < c then GatIndex(n + 1, c) else GatUnlock(n + 1)));
      if Inv(s') {
        StopDepends(s, s', s.safe.tail + 1);
        if n + 1 < c {
          GatherLoopRuns(s', t, n + 1, c);
          assert end == WithResult(s'.(safe := s'.safe.(tail := r), safeTailMtx := Free), t,
                                   Found(n + 1 + r - s'.safe.tail));
        } else {
          GatherEnds(s', t, n + 1, end);
        }
      }
      GatherTurn(s, t, n, c, end);
    }
  }

  lemma {:induction false} StopDepends(s: State, s': State, k: nat)
    requires Ordered(s) && Ordered(s') && k <= s.locked.tail
    requires s.locked.tail == s'.locked.tail && s.slots == s'.slots
    ensures GatherStop(s, k) == GatherStop(s', k)
    decreases s.locked.tail - k
  {
    if k < s.locked.tail && s.slots[k % s.size].word != 0 { StopDepends(s, s', k + 1); }
  }

  /** Gather from the moment it holds the mutex. */
  lemma GatherLocked(s: State, t: nat)
    requires Inv(s) && Ordered(s) && t < |s.threads| && s.threads[t] == InGather(GatLockedTail)
    ensures var r := GatherStop(s, s.safe.tail);
      RunsAlone(s, t, WithResult(s.(safe := s.safe.(tail := r), safeTailMtx := Free), t, Found(r - s.safe.tail)))
  {
    hide Inv, StepsTo, RunsAlone, ThreadOk;
    var r := GatherStop(s, s.safe.tail);
    var end := WithResult(s.(safe := s.safe.(tail := r), safeTailMtx := Free), t, Found(r - s.safe.tail));
    Walk(s, t);
    var s1 := Access(s, t);
    Walk(s1, t);
    var s2 := Access(s1, t);
    StopDepends(s, s2, s.safe.tail);
    if s.locked.tail > s.safe.tail {
      GatherLoopRuns(s2, t, 0, s.locked.tail - s.safe.tail);
      assert end == WithResult(s2.(safe := end.safe, safeTailMtx := Free), t, Found(0 + r - s2.safe.tail));
    } else {
      assert end == WithResult(s2.(safeTailMtx := Free), t, Found(0));
      GatherEnds(s2, t, 0, end);
    }
    RunsCons(s1, t, s2, end);
    RunsCons(s, t, s1, end);
  }

  lemma GatherRuns(s: State, t: nat)
    requires Inv(s) && Enabled(s, t, Start(Gather))
    ensures RunsAlone(Begin(s, t, Gather), t, GatherAlone(s, t))
    ensures Inv(GatherAlone(s, t))
  {
    var s0 := Begin(s, t, Gather);
    StepInv(s, t, Start(Gather));
    assert Ordered(s) && Ordered(s0);
    hide Inv, StepsTo, RunsAlone, ThreadOk;
    Walk(s0, t);
    var end := GatherAlone(s, t);
    var s1 := Access(s0, t);
    if s.safeTailMtx != Free {
      assert s1 == end;
      RunsDone(end, t);
    } else {
      GatherLocked(s1, t);
      StopDepends(s, s1, s.safe.tail);
      assert end == WithResult(s1.(safe := end.safe, safeTailMtx := Free), t, end.threads[t].result);
    }
    RunsCons(s0, t, s1, end);
    RunsAloneInv(s0, t, end);
  }

  lemma DequeueRuns(s: State, t: nat, num: nat)
    requires Inv(s) && Enabled(s, t, Start(Dequeue(num)))
    ensures RunsAlone(Begin(s, t, Dequeue(num)), t, DequeueAlone(s, t, num))
    ensures Inv(DequeueAlone(s, t, num))
  {
    var s0 := Begin(s, t, Dequeue(num));
    StepInv(s, t, Start(Dequeue(num)));
    Walk(s0, t);
    var end := DequeueAlone(s, t, num);
    RunsDone(end, t);
    var s1 := Access(s0, t);
    if s.safe.tail > s.safe.head {
      Walk(s1, t);
      assert Access(s1, t) == end;
      RunsCons(s1, t, end, end);
    } else {
      assert s1 == end;
    }
    RunsCons(s0, t, s1, end);
    RunsAloneInv(Begin(s, t, Dequeue(num)), t, DequeueAlone(s, t, num));
  }

  lemma {:induction false} ReleaseLoopRuns(s0: State, s: State, t: nat, lo: nat, i: nat, hi: nat)
    requires Inv(s) && t < |s.threads| && s.threads[t] == InRelease(i, hi)
    requires Ordered(s0) && lo <= i < hi <= |s0.phase| && |s0.threads| == |s.threads|
    requires s == s0.(threads := s0.threads[t := InRelease(i, hi)], slots := ClearSlots(s0.slots, lo, i),
                      phase := s.phase)
    requires |s.phase| == |s0.phase|
    requires forall k :: 0 <= k < |s.phase| ==>
      s.phase[k] == if lo <= k < i then Released else if i <= k < hi then Releasing(t) else s0.phase[k]
    ensures RunsAlone(s, t, ReleaseAlone(s0, t, QueueRange(lo, hi)))
    decreases hi - i
  {
    assert ThreadOk(s, t);
    var s1 := Access(s, t);
    StepInv(s, t, Advance);
    var end := ReleaseAlone(s0, t, QueueRange(lo, hi));
    assert s1.slots == ClearSlots(s0.slots, lo, i + 1);
    if i + 1 < hi {
      ReleaseLoopRuns(s0, s1, t, lo, i + 1, hi);
    } else {
      assert s1.phase == end.phase;
      assert s1 == end;
      RunsDone(end, t);
    }
    RunsCons(s, t, s1, end);
  }

  lemma ReleaseRuns(s: State, t: nat, r: QueueRange)
    requires Inv(s) && Enabled(s, t, Start(Release(r)))
    ensures RunsAlone(Begin(s, t, Release(r)), t, ReleaseAlone(s, t, r))
    ensures Inv(ReleaseAlone(s, t, r))
  {
    var s0 := Begin(s, t, Release(r));
    StepInv(s, t, Start(Release(r)));
    if r.head < r.tail {
      ReleaseLoopRuns(s, s0, t, r.head, r.head, r.tail);
    } else {
      assert Mark(s.phase, r.head, r.tail, Released) == s.phase;
      RunsDone(s0, t);
    }
    RunsAloneInv(Begin(s, t, Release(r)), t, ReleaseAlone(s, t, r));
  }

  /** A turn of garbage collection's loop that passes a free slot. */
  lemma CollectTurn(s: State, t: nat, n: nat, c: nat, end: State)
    requires Inv(s) && t < |s.threads| && s.threads[t] == InCollect(GcIndex(n, c))
    requires Ordered(s) && s.slots[s.locked.head % s.size].word == 0
    requires var s' := Goto(s.(locked := s.locked.(head := s.locked.head + 1)), t,
                            InCollect(if n + 1 < c then GcIndex(n + 1, c) else GcUnlock));
      Inv(s') ==> RunsAlone(s', t, end)
    ensures RunsAlone(s, t, end)
  {
    hide Inv, StepsTo, RunsAlone, ThreadOk;
    Walk(s, t);
    var s1 := Access(s, t);
    Walk(s1, t);
    var s2 := Access(s1, t);
    Walk(s2, t);
    var s3 := Access(s2, t);
    Walk(s3, t);
    var s4 := Access(s3, t);
    assert s4 == Goto(s.(locked := s.locked.(head := s.locked.head + 1)), t,
                      InCollect(if n + 1 < c then GcIndex(n + 1, c) else GcUnlock));
    RunsCons(s3, t, s4, end);
    RunsCons(s2, t, s3, end);
    RunsCons(s1, t, s2, end);
    RunsCons(s, t, s1, end);
  }

  /** A turn that meets a slot in use, and the way out. */
  lemma CollectStops(s: State, t: nat, n: nat, c: nat, end: State)
    requires Inv(s) && t < |s.threads| && s.threads[t] == InCollect(GcIndex(n, c))
    requires Ordered(s) && s.slots[s.locked.head % s.size].word != 0
    requires end == WithResult(s.(lockedHeadMtx := Free), t, Ran(1))
    ensures RunsAlone(s, t, end)
  {
    hide Inv, StepsTo, RunsAlone, ThreadOk;
    Walk(s, t);
    var s1 := Access(s, t);
    Walk(s1, t);
    var s2 := Access(s1, t);
    CollectEnds(s2, t, end);
    RunsCons(s1, t, s2, end);
    RunsCons(s, t, s1, end);
  }

  lemma CollectEnds(s: State, t: nat, end: State)
    requires Inv(s) && t < |s.threads| && s.threads[t] == InCollect(GcUnlock)
    requires end == WithResult(s.(lockedHeadMtx := Free), t, Ran(1))
    ensures RunsAlone(s, t, end)
  {
    RunsDone(end, t);
    Walk(s, t);
    RunsCons(s, t, end, end);
  }

  /** Garbage collection's loop, by induction on the turns left. */
  lemma {:induction false} CollectLoopRuns(s: State, t: nat, n: nat, c: nat)
    requires Inv(s) && Ordered(s) && t < |s.threads| && s.threads[t] == InCollect(GcIndex(n, c))
    requires n < c && s.locked.head + (c - n) == s.safe.head
    ensures var r := CollectStop(s, s.locked.head);
      RunsAlone(s, t, WithResult(s.(locked := s.locked.(head := r), lockedHeadMtx := Free), t, Ran(1)))
    decreases c - n
  {
    hide Inv, RunsAlone, ThreadOk;
    var r := CollectStop(s, s.locked.head);
    var end := WithResult(s.(locked := s.locked.(head := r), lockedHeadMtx := Free), t, Ran(1));
    if s.slots[s.locked.head % s.size].word != 0 {
      CollectStops(s, t, n, c, end);
    } else {
      var s' := Goto(s.(locked := s.locked.(head := s.locked.head + 1)), t,
                     InCollect(if n + 1 < c then GcIndex(n + 1, c) else GcUnlock));
      if Inv(s') {
        CollectDepends(s, s', s.locked.head + 1);
        if n + 1 < c {
          CollectLoopRuns(s', t, n + 1, c);
          assert end == WithResult(s'.(locked := s'.locked.(head := r), lockedHeadMtx := Free), t, Ran(1));
        } else {
          CollectEnds(s', t, end);
        }
      }
      CollectTurn(s, t, n, c, end);
    }
  }

  lemma {:induction false} CollectDepends(s: State, s': State, k: nat)
    requires Ordered(s) && Ordered(s') && k <= s.safe.head
    requires s.safe.head == s'.safe.head && s.slots == s'.slots
    ensures CollectStop(s, k) == CollectStop(s', k)
    decreases s.safe.head - k
  {
    if k < s.safe.head && s.slots[k % s.size].word == 0 { CollectDepends(s, s', k + 1); }
  }

  /** Garbage collection from the moment it holds the mutex. */
  lemma CollectLocked(s: State, t: nat)
    requires Inv(s) && Ordered(s) && t < |s.threads| && s.threads[t] == InCollect(GcSafeHead)
    ensures RunsAlone(s, t, WithResult(s.(locked := s.locked.(head := CollectStop(s, s.locked.head)),
                                          lockedHeadMtx := Free), t, Ran(1)))
  {
    hide Inv, StepsTo, RunsAlone, ThreadOk;
    var stop := CollectStop(s, s.locked.head);
    var end := WithResult(s.(locked := s.locked.(head := stop), lockedHeadMtx := Free), t, Ran(1));
    Walk(s, t);
    var s1 := Access(s, t);
    Walk(s1, t);
    var s2 := Access(s1, t);
    CollectDepends(s, s2, s.locked.head);
    if s.safe.head > s.locked.head {
      CollectLoopRuns(s2, t, 0, s.safe.head - s.locked.head);
      assert end == WithResult(s2.(locked := end.locked, lockedHeadMtx := Free), t, Ran(1));
    } else {
      assert end == WithResult(s2.(lockedHeadMtx := Free), t, Ran(1));
      CollectEnds(s2, t, end);
    }
    RunsCons(s1, t, s2, end);
    RunsCons(s, t, s1, end);
  }

  lemma CollectRuns(s: State, t: nat)
    requires Inv(s) && Enabled(s, t, Start(Collect))
    ensures RunsAlone(Begin(s, t, Collect), t, CollectAlone(s, t))
    ensures Inv(CollectAlone(s, t))
  {
    var s0 := Begin(s, t, Collect);
    StepInv(s, t, Start(Collect));
    assert Ordered(s) && Ordered(s0);
    hide Inv, StepsTo, RunsAlone, ThreadOk;
    Walk(s0, t);
    var end := CollectAlone(s, t);
    var s1 := Access(s0, t);
    if s.lockedHeadMtx != Free {
      assert s1 == end;
      RunsDone(end, t);
    } else {
      CollectLocked(s1, t);
      CollectDepends(s, s1, s.locked.head);
      assert end == WithResult(s1.(locked := end.locked, lockedHeadMtx := Free), t, Ran(1));
    }
    RunsCons(s0, t, s1, end);
    RunsAloneInv(s0, t, end);
  }
}
