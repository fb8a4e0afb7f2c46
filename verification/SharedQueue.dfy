/**
  `SharedQueue` as the source writes it: a class whose calls run their loops over the shared
  words.  Each contract says that the call, uninterrupted, makes exactly the change of state that
  the transition system makes when one thread runs alone (module `QueueCalls`), and what that
  achieves for the caller.
 */
module SharedQueueClass {
  import opened QueueSteps
  import opened QueueCalls
  import opened QueueFifo

  class SharedQueue {
    const maxSize: nat
    const queue: array<Message>
    var locked: QueueRange
    var safe: QueueRange
    var safeTailMtx: nat
    var lockedHeadMtx: nat
    ghost var log: seq<Message>
    ghost var phase: seq<Phase>

    /** The state of the transition system with one thread, idle after returning `r`. */
    ghost function View(r: Result): State
      reads this, queue
    {
      State(maxSize, locked, safe,
            if safeTailMtx == 0 then Free else By(0), if lockedHeadMtx == 0 then Free else By(0),
            queue[..], [Idle(r)], log, phase)
    }

    /** No call is running, and the invariant of the transition system holds. */
    ghost predicate Valid()
      reads this, queue
    {
      Inv(View(NoResult))
    }

    constructor (size: nat)
      requires size > 0
      ensures Valid() && fresh(queue) && maxSize == size && log == []
    {
      maxSize := size;
      queue := new Message[size](_ => EMPTY);
      locked, safe := QueueRange(0, 0), QueueRange(0, 0);
      safeTailMtx, lockedHeadMtx := 0, 0;
      log, phase := [], [];
      new;
      FreshInv(View(NoResult));
    }

    lemma AnyResult(r: Result)
      requires Inv(View(r))
      ensures Valid() && safeTailMtx == 0 && lockedHeadMtx == 0
    {
      assert ThreadOk(View(r), 0);
      MoveInv(View(r), 0, Idle(NoResult));
      assert Goto(View(r), 0, Idle(NoResult)) == View(NoResult);
    }

    /** Alone, enqueue fails exactly when the ring is full; otherwise the message gets the next index. */
    method Enqueue(msg: Message) returns (index: int)
      requires Valid() && msg.word != 0
      modifies this, queue
      ensures Valid()
      ensures View(Index(index)) == old(EnqueueAlone(View(NoResult), 0, msg))
      ensures index == -1 <==> old(locked.tail - locked.head) == maxSize
      ensures index != -1 ==> index == |old(log)| && log == old(log) + [msg] && queue[index % maxSize] == msg
    {
      ghost var s := View(NoResult);
      EnqueueRuns(s, 0, msg);
      AnyResult(NoResult);
      hide Inv;
      for i := 0 to MAX_RACE_TRIES
        invariant i == 0 && View(NoResult) == s && Ordered(s)
      {
        var snap := locked;
        if snap.tail - snap.head + 1 > maxSize {
          assert View(Index(-1)) == EnqueueAlone(s, 0, msg);
          AnyResult(Index(-1));
          return -1;
        }
        if locked == snap {
          locked := QueueRange(snap.head, snap.tail + 1);
          queue[snap.tail % maxSize] := msg;
          log, phase := log + [msg], phase + [Published];
          assert View(Index(snap.tail)) == EnqueueAlone(s, 0, msg);
          AnyResult(Index(snap.tail));
          return snap.tail;
        }
      }
      return -1;
    }

    /** Alone, gathering makes every reserved message available: none is still being stored. */
    method GatherNewData() returns (newFound: nat)
      requires Valid()
      modifies this
      ensures Valid()
      ensures View(Found(newFound)) == old(GatherAlone(View(NoResult), 0))
      ensures safe.tail == locked.tail && newFound == old(locked.tail - safe.tail)
    {
      ghost var s := View(NoResult);
      AnyResult(NoResult);
      GatherRuns(s, 0);
      NothingInFlight(s);
      hide Inv;
      var myTailMtx := safeTailMtx;
      safeTailMtx := 1;
      newFound := 0;
      if myTailMtx == 0 {
        var count := locked.tail - safe.tail;
        while newFound < count
          invariant newFound <= count && count == s.locked.tail - s.safe.tail
          invariant safe == s.safe.(tail := s.safe.tail + newFound)
          invariant View(Found(newFound)) == WithResult(s.(safe := safe, safeTailMtx := By(0)), 0, Found(newFound))
          invariant Ordered(s) && GatherStop(s, s.safe.tail) == GatherStop(s, safe.tail)
        {
          if queue[safe.tail % maxSize].word == 0 { break; }
          safe := safe.(tail := safe.tail + 1);
          newFound := newFound + 1;
        }
        safeTailMtx := 0;
      }
      assert View(Found(newFound)) == GatherAlone(s, 0);
      AnyResult(Found(newFound));
    }

    /** Alone, dequeue takes the next `num` available messages, or as many as there are. */
    method Dequeue(num: nat) returns (range: QueueRange)
      requires Valid()
      modifies this
      ensures Valid()
      ensures View(Taken(range)) == old(DequeueAlone(View(NoResult), 0, num))
      ensures old(safe.tail == safe.head) ==> range == QueueRange(0, 0)
      ensures old(safe.tail > safe.head) ==>
        && range.head == old(safe.head) && safe.head == range.tail
        && (range.tail - range.head == num || (range.tail - range.head < num && range.tail == safe.tail))
    {
      ghost var s := View(NoResult);
      DequeueRuns(s, 0, num);
      AnyResult(NoResult);
      hide Inv;
      var tmp := safe;
      var n := num;
      for i := 0 to MAX_RACE_TRIES
        invariant i == 0 && tmp == s.safe && n == num && View(NoResult) == s && Ordered(s)
      {
        var length := tmp.tail - tmp.head;
        if length == 0 { break; }
        if n > length { n := length; }
        if safe == tmp {
          safe := QueueRange(tmp.head + n, tmp.tail);
          phase := Mark(phase, tmp.head, tmp.head + n, Held);
          range := QueueRange(tmp.head, tmp.head + n);
          assert View(Taken(range)) == DequeueAlone(s, 0, num);
          AnyResult(Taken(range));
          return range;
        }
      }
      assert View(Taken(QueueRange(0, 0))) == DequeueAlone(s, 0, num);
      AnyResult(Taken(QueueRange(0, 0)));
      return QueueRange(0, 0);
    }

    /** Frees the slots of a range whose every index was dequeued and is still held. */
    method Release(range: QueueRange)
      requires Valid() && CallAllowed(View(NoResult), Call.Release(range))
      modifies this`phase, queue
      ensures Valid()
      ensures View(NoResult) == old(ReleaseAlone(View(NoResult), 0, range))
    {
      ghost var s := View(NoResult);
      ReleaseRuns(s, 0, range);
      hide Inv;
      for i := range.head to range.tail
        invariant Ordered(s) && View(NoResult) == s.(slots := ClearSlots(s.slots, range.head, i))
      {
        var k := i % maxSize;
        queue[k] := queue[k].(word := 0);
      }
      phase := Mark(phase, range.head, range.tail, Released);
      assert View(NoResult) == ReleaseAlone(s, 0, range);
    }

    /** Alone, garbage collection frees up to the first index that is still held. */
    method GarbageCollect() returns (ran: nat)
      requires Valid()
      modifies this
      ensures Valid() && ran == 1
      ensures View(Ran(ran)) == old(CollectAlone(View(NoResult), 0))
      ensures forall k :: old(locked.head) <= k < locked.head ==> phase[k] == Released
      ensures locked.head < safe.head ==> phase[locked.head] == Held
    {
      ghost var s := View(NoResult);
      AnyResult(NoResult);
      CollectRuns(s, 0);
      WhatIsCollected(s);
      hide Inv;
      ran := 0;
      var myHeadMtx := lockedHeadMtx;
      lockedHeadMtx := 1;
      if myHeadMtx == 0 {
        var count := safe.head - locked.head;
        var i := 0;
        while i < count
          invariant i <= count && count == s.safe.head - s.locked.head
          invariant locked == s.locked.(head := s.locked.head + i)
          invariant View(Ran(1)) == WithResult(s.(locked := locked, lockedHeadMtx := By(0)), 0, Ran(1))
          invariant Ordered(s) && CollectStop(s, s.locked.head) == CollectStop(s, locked.head)
        {
          if queue[locked.head % maxSize].word != 0 { break; }
          locked := locked.(head := locked.head + 1);
          i := i + 1;
        }
        lockedHeadMtx := 0;
        assert View(Ran(1)) == CollectAlone(s, 0);
        AnyResult(Ran(1));
        ran := 1;
      }
    }
  }

  /** With every thread idle, no reserved message is still to be stored. */
  lemma NothingInFlight(s: State)
    requires Inv(s) && forall t :: 0 <= t < |s.threads| ==> s.threads[t].Idle?
    ensures Ordered(s) && GatherStop(s, s.safe.tail) == s.locked.tail
  {
    var r := GatherStop(s, s.safe.tail);
    if r < s.locked.tail { QuiescentPhases(s, r); }
  }

  /** With every thread idle, collection stops at the first held index. */
  lemma WhatIsCollected(s: State)
    requires Inv(s) && forall t :: 0 <= t < |s.threads| ==> s.threads[t].Idle?
    ensures Ordered(s)
    ensures var r := CollectStop(s, s.locked.head);
      && (forall k :: s.locked.head <= k < r ==> s.phase[k] == Released)
      && (r < s.safe.head ==> s.phase[r] == Held)
  {
    var r := CollectStop(s, s.locked.head);
    forall k | s.locked.head <= k < r ensures s.phase[k] == Released { QuiescentPhases(s, k); assert SlotOk(s, k); }
    if r < s.safe.head { QuiescentPhases(s, r); assert SlotOk(s, r); }
  }
}
