/**
  The lock-free ring of src/include/std/queue.h as a transition system.

  Every access a thread makes to a shared word (`q_locked`, `q_safe`, the two mutex words, a
  slot) is one step, and the steps of any number of threads interleave freely.  Counters are
  mathematical: the model covers runs of fewer than 2^16 reservations.
 */
module QueueSteps {
  import opened Arithmetic

  const MAX_RACE_TRIES := 10

  /** A slot: its first word, which is zero exactly when the slot is free, and the other words. */
  datatype Message = Message(word: int, rest: seq<int>)

  datatype QueueRange = QueueRange(head: nat, tail: nat)

  /** What the last call of a thread returned. */
  datatype Result =
    | NoResult
    | Index(index: int)
    | Found(count: nat)
    | Taken(range: QueueRange)
    | Ran(flag: nat)

  // Where a thread stands inside each call, with the values it holds in local variables.

  datatype EnqueuePc =
    | EnqSnapshot(tries: nat, msg: Message)
    | EnqCas(tries: nat, msg: Message, snap: QueueRange)
    | EnqStore(msg: Message, index: nat)

  datatype GatherPc =
    | GatSwap
    | GatLockedTail
    | GatSafeTail(lockedTail: nat)
    | GatIndex(found: nat, count: nat)
    | GatProbe(found: nat, count: nat, at: nat)
    | GatReadTail(found: nat, count: nat)
    | GatWriteTail(found: nat, count: nat, at: nat)
    | GatUnlock(found: nat)

  datatype DequeuePc =
    | DeqSnapshot(num: nat)
    | DeqCas(tries: nat, num: nat, snap: QueueRange)

  datatype CollectPc =
    | GcSwap
    | GcSafeHead
    | GcLockedHead(safeHead: nat)
    | GcIndex(done: nat, count: nat)
    | GcProbe(done: nat, count: nat, at: nat)
    | GcReadHead(done: nat, count: nat)
    | GcWriteHead(done: nat, count: nat, at: nat)
    | GcUnlock

  datatype Pc =
    | Idle(result: Result)
    | InEnqueue(enq: EnqueuePc)
    | InGather(gat: GatherPc)
    | InDequeue(deq: DequeuePc)
    | InRelease(i: nat, end: nat)
    | InCollect(gc: CollectPc)

  /** The life of one reserved index.  History only: no step consults it. */
  datatype Phase =
    | Reserved(producer: nat)   // its CAS succeeded, its store has not happened
    | Published
    | Held                      // dequeued, not yet released
    | Releasing(consumer: nat)  // inside the range of a running release
    | Released

  /** A mutex word: 0, or 1 and then set by the swap of thread `tid`. */
  datatype Mutex = Free | By(tid: nat)

  /**
    `locked`, `safe`, the mutexes and `slots` are the shared memory.  `log` and `phase` are
    history: the message each successful reservation is for, and how far it has got.
   */
  datatype State = State(
    size: nat,
    locked: QueueRange,
    safe: QueueRange,
    safeTailMtx: Mutex,
    lockedHeadMtx: Mutex,
    slots: seq<Message>,
    threads: seq<Pc>,
    log: seq<Message>,
    phase: seq<Phase>)

  /** What a thread may call when it is idle. */
  datatype Call =
    | Enqueue(msg: Message)
    | Gather
    | Dequeue(num: nat)
    | Release(range: QueueRange)
    | Collect

  datatype Action =
    | Start(call: Call)   // an idle thread enters a call
    | Read(k: nat)        // a client reads the slot of a dequeued index
    | Advance             // a thread inside a call makes its next shared access

  const EMPTY := Message(0, [])

  // ---------------------------------------------------------------- the invariant

  predicate Ordered(s: State) {
    && s.size > 0
    && |s.slots| == s.size
    && s.locked.head <= s.safe.head <= s.safe.tail <= s.locked.tail <= s.locked.head + s.size
    && |s.log| == |s.phase| == s.locked.tail
    && forall k :: 0 <= k < |s.log| ==> s.log[k].word != 0
  }

  predicate PhaseOk(s: State, k: nat)
    requires Ordered(s) && k < |s.phase|
  {
    match s.phase[k]
    case Reserved(t) => s.safe.tail <= k && t < |s.threads| && s.threads[t] == InEnqueue(EnqStore(s.log[k], k))
    case Published => s.safe.head <= k
    case Held => s.locked.head <= k < s.safe.head
    case Releasing(t) =>
      && s.locked.head <= k < s.safe.head
      && t < |s.threads| && s.threads[t].InRelease? && s.threads[t].i <= k < s.threads[t].end
    case Released => k < s.safe.head
  }

  /** What the slot of index `k` holds, for the `size` indices from `locked.head` on. */
  predicate SlotOk(s: State, k: nat)
    requires Ordered(s) && s.locked.head <= k < s.locked.head + s.size
  {
    var slot := s.slots[k % s.size];
    if k < s.locked.tail && (s.phase[k].Published? || s.phase[k].Held? || s.phase[k].Releasing?)
    then slot == s.log[k]
    else slot.word == 0
  }

  // What each thread may rely on, as a function of the parts of the state it speaks of.

  predicate EnqueueOk(size: nat, log: seq<Message>, phase: seq<Phase>, t: nat, pc: EnqueuePc)
    requires |log| == |phase|
  {
    match pc
    case EnqSnapshot(_, m) => m.word != 0
    case EnqCas(_, m, q) => m.word != 0 && q.head <= q.tail && q.tail - q.head + 1 <= size
    case EnqStore(m, k) => k < |phase| && phase[k] == Reserved(t) && log[k] == m
  }

  predicate GatherOk(safeTail: nat, lockedTail: nat, phase: seq<Phase>, pc: GatherPc)
    requires lockedTail == |phase|
  {
    match pc
    case GatSafeTail(lt) => safeTail <= lt <= lockedTail
    case GatIndex(n, c) => n < c && safeTail + (c - n) <= lockedTail
    case GatProbe(n, c, at) => n < c && safeTail + (c - n) <= lockedTail && at == safeTail
    case GatReadTail(n, c) => n < c && safeTail + (c - n) <= lockedTail && phase[safeTail] == Published
    case GatWriteTail(n, c, at) =>
      n < c && safeTail + (c - n) <= lockedTail && phase[safeTail] == Published && at == safeTail
    case _ => true
  }

  predicate CollectOk(lockedHead: nat, safeHead: nat, phase: seq<Phase>, pc: CollectPc)
    requires safeHead <= |phase|
  {
    match pc
    case GcLockedHead(sh) => lockedHead <= sh <= safeHead
    case GcIndex(n, c) => n < c && lockedHead + (c - n) <= safeHead
    case GcProbe(n, c, at) => n < c && lockedHead + (c - n) <= safeHead && at == lockedHead
    case GcReadHead(n, c) => n < c && lockedHead + (c - n) <= safeHead && phase[lockedHead] == Released
    case GcWriteHead(n, c, at) =>
      n < c && lockedHead + (c - n) <= safeHead && phase[lockedHead] == Released && at == lockedHead
    case _ => true
  }

  predicate ReleaseOk(phase: seq<Phase>, t: nat, i: nat, end: nat) {
    i < end <= |phase| && forall k :: i <= k < end ==> phase[k] == Releasing(t)
  }

  predicate DequeueOk(pc: DequeuePc) {
    pc.DeqCas? ==> pc.snap.head <= pc.snap.head + pc.num <= pc.snap.tail
  }

  predicate HoldsTail(pc: Pc) { pc.InGather? && !pc.gat.GatSwap? }

  predicate HoldsHead(pc: Pc) { pc.InCollect? && !pc.gc.GcSwap? }

  predicate ThreadOk(s: State, t: nat)
    requires Ordered(s) && t < |s.threads|
  {
    var pc := s.threads[t];
    && (HoldsTail(pc) <==> s.safeTailMtx == By(t))
    && (HoldsHead(pc) <==> s.lockedHeadMtx == By(t))
    && match pc
       case Idle(_) => true
       case InEnqueue(e) => EnqueueOk(s.size, s.log, s.phase, t, e)
       case InGather(g) => GatherOk(s.safe.tail, s.locked.tail, s.phase, g)
       case InDequeue(d) => DequeueOk(d)
       case InRelease(i, end) => ReleaseOk(s.phase, t, i, end)
       case InCollect(c) => CollectOk(s.locked.head, s.safe.head, s.phase, c)
  }

  predicate OwnersExist(s: State) {
    && (s.safeTailMtx.By? ==> s.safeTailMtx.tid < |s.threads| && HoldsTail(s.threads[s.safeTailMtx.tid]))
    && (s.lockedHeadMtx.By? ==> s.lockedHeadMtx.tid < |s.threads| && HoldsHead(s.threads[s.lockedHeadMtx.tid]))
  }

  predicate Inv(s: State) {
    && Ordered(s)
    && OwnersExist(s)
    && (forall k: nat :: k < |s.phase| ==> PhaseOk(s, k))
    && (forall k: nat :: s.locked.head <= k < s.locked.head + s.size ==> SlotOk(s, k))
    && (forall t: nat :: t < |s.threads| ==> ThreadOk(s, t))
  }

  // ---------------------------------------------------------------- the steps

  function Mark(phase: seq<Phase>, lo: nat, hi: nat, p: Phase): (r: seq<Phase>)
    ensures |r| == |phase|
    ensures forall k :: 0 <= k < |phase| ==> r[k] == if lo <= k < hi then p else phase[k]
  {
    seq(|phase|, k requires 0 <= k < |phase| => if lo <= k < hi then p else phase[k])
  }

  /** Clients pass only nonzero messages and release only what they dequeued. */
  predicate CallAllowed(s: State, call: Call) {
    match call
    case Enqueue(msg) => msg.word != 0
    case Release(r) => r.head <= r.tail <= |s.phase| && forall k :: r.head <= k < r.tail ==> s.phase[k] == Held
    case _ => true
  }

  predicate Enabled(s: State, t: nat, a: Action) {
    && t < |s.threads|
    && match a
       case Start(call) => s.threads[t].Idle? && CallAllowed(s, call)
       case Read(k) => s.threads[t].Idle? && k < |s.phase| && s.phase[k] == Held
       case Advance => !s.threads[t].Idle?
  }

  function Goto(s: State, t: nat, pc: Pc): State
    requires t < |s.threads|
  {
    s.(threads := s.threads[t := pc])
  }

  function Begin(s: State, t: nat, call: Call): State
    requires t < |s.threads|
  {
    match call
    case Enqueue(msg) => Goto(s, t, InEnqueue(EnqSnapshot(0, msg)))
    case Gather => Goto(s, t, InGather(GatSwap))
    case Dequeue(num) => Goto(s, t, InDequeue(DeqSnapshot(num)))
    case Release(r) =>
      if r.head < r.tail then
        Goto(s.(phase := Mark(s.phase, r.head, r.tail, Releasing(t))), t, InRelease(r.head, r.tail))
      else Goto(s, t, Idle(NoResult))
    case Collect => Goto(s, t, InCollect(GcSwap))
  }

  function EnqueueAccess(s: State, t: nat, pc: EnqueuePc): State
    requires Ordered(s) && t < |s.threads| && EnqueueOk(s.size, s.log, s.phase, t, pc)
  {
    match pc
    case EnqSnapshot(i, m) =>
      if s.locked.tail - s.locked.head + 1 > s.size then Goto(s, t, Idle(Index(-1)))
      else Goto(s, t, InEnqueue(EnqCas(i, m, s.locked)))
    case EnqCas(i, m, q) =>
      if s.locked == q then
        Goto(s.(locked := QueueRange(q.head, q.tail + 1), log := s.log + [m], phase := s.phase + [Reserved(t)]),
             t, InEnqueue(EnqStore(m, q.tail)))
      else Goto(s, t, if i + 1 < MAX_RACE_TRIES then InEnqueue(EnqSnapshot(i + 1, m)) else Idle(Index(-1)))
    case EnqStore(m, k) =>
      Goto(s.(slots := s.slots[k % s.size := m], phase := s.phase[k := Published]), t, Idle(Index(k)))
  }

  function GatherAccess(s: State, t: nat, pc: GatherPc): (s': State)
    requires Ordered(s) && t < |s.threads|
    ensures s'.size == s.size && s'.log == s.log && s'.phase == s.phase && s'.safe.head == s.safe.head
  {
    match pc
    case GatSwap =>
      if s.safeTailMtx == Free then Goto(s.(safeTailMtx := By(t)), t, InGather(GatLockedTail))
      else Goto(s, t, Idle(Found(0)))
    case GatLockedTail => Goto(s, t, InGather(GatSafeTail(s.locked.tail)))
    case GatSafeTail(lt) =>
      Goto(s, t, InGather(if lt - s.safe.tail > 0 then GatIndex(0, lt - s.safe.tail) else GatUnlock(0)))
    case GatIndex(n, c) => Goto(s, t, InGather(GatProbe(n, c, s.safe.tail)))
    case GatProbe(n, c, at) =>
      Goto(s, t, InGather(if s.slots[at % s.size].word == 0 then GatUnlock(n) else GatReadTail(n, c)))
    case GatReadTail(n, c) => Goto(s, t, InGather(GatWriteTail(n, c, s.safe.tail)))
    case GatWriteTail(n, c, at) =>
      Goto(s.(safe := s.safe.(tail := at + 1)), t, InGather(if n + 1 < c then GatIndex(n + 1, c) else GatUnlock(n + 1)))
    case GatUnlock(n) => Goto(s.(safeTailMtx := Free), t, Idle(Found(n)))
  }

  /** The top of dequeue's loop: give up, or clamp `num` and go for the CAS. */
  function DequeueTop(tries: nat, num: nat, snap: QueueRange): Pc {
    if tries < MAX_RACE_TRIES && snap.tail - snap.head > 0 then
      InDequeue(DeqCas(tries, if num > snap.tail - snap.head then snap.tail - snap.head else num, snap))
    else Idle(Taken(QueueRange(0, 0)))
  }

  function DequeueAccess(s: State, t: nat, pc: DequeuePc): State
    requires t < |s.threads|
  {
    match pc
    case DeqSnapshot(num) => Goto(s, t, DequeueTop(0, num, s.safe))
    case DeqCas(i, num, q) =>
      if s.safe == q then
        Goto(s.(safe := QueueRange(q.head + num, q.tail), phase := Mark(s.phase, q.head, q.head + num, Held)),
             t, Idle(Taken(QueueRange(q.head, q.head + num))))
      else Goto(s, t, DequeueTop(i + 1, num, s.safe))
  }

  function ReleaseAccess(s: State, t: nat, i: nat, end: nat): State
    requires Ordered(s) && t < |s.threads| && i < |s.phase|
  {
    Goto(s.(slots := s.slots[i % s.size := s.slots[i % s.size].(word := 0)], phase := s.phase[i := Released]),
         t, if i + 1 < end then InRelease(i + 1, end) else Idle(NoResult))
  }

  function CollectAccess(s: State, t: nat, pc: CollectPc): (s': State)
    requires Ordered(s) && t < |s.threads|
    ensures s'.size == s.size && s'.log == s.log && s'.phase == s.phase && s'.safe.head == s.safe.head
  {
    match pc
    case GcSwap =>
      if s.lockedHeadMtx == Free then Goto(s.(lockedHeadMtx := By(t)), t, InCollect(GcSafeHead))
      else Goto(s, t, Idle(Ran(0)))
    case GcSafeHead => Goto(s, t, InCollect(GcLockedHead(s.safe.head)))
    case GcLockedHead(sh) =>
      Goto(s, t, InCollect(if 0 < sh - s.locked.head then GcIndex(0, sh - s.locked.head) else GcUnlock))
    case GcIndex(n, c) => Goto(s, t, InCollect(GcProbe(n, c, s.locked.head)))
    case GcProbe(n, c, at) =>
      Goto(s, t, InCollect(if s.slots[at % s.size].word != 0 then GcUnlock else GcReadHead(n, c)))
    case GcReadHead(n, c) => Goto(s, t, InCollect(GcWriteHead(n, c, s.locked.head)))
    case GcWriteHead(n, c, at) =>
      Goto(s.(locked := s.locked.(head := at + 1)), t, InCollect(if n + 1 < c then GcIndex(n + 1, c) else GcUnlock))
    case GcUnlock => Goto(s.(lockedHeadMtx := Free), t, Idle(Ran(1)))
  }

  /** The next shared access of thread `t`. */
  function Access(s: State, t: nat): State
    requires Ordered(s) && t < |s.threads| && ThreadOk(s, t)
  {
    match s.threads[t]
    case Idle(_) => s
    case InEnqueue(e) => EnqueueAccess(s, t, e)
    case InGather(g) => GatherAccess(s, t, g)
    case InDequeue(d) => DequeueAccess(s, t, d)
    case InRelease(i, end) => ReleaseAccess(s, t, i, end)
    case InCollect(c) => CollectAccess(s, t, c)
  }

  function Next(s: State, t: nat, a: Action): State
    requires Inv(s) && Enabled(s, t, a)
  {
    match a
    case Start(call) => Begin(s, t, call)
    case Read(k) => s
    case Advance => Access(s, t)
  }

  // ---------------------------------------------------------------- every step keeps the invariant

  /** Writing the slot of one index of the window leaves every other index's slot alone. */
  lemma WindowWrite(s: State, k: nat, m: Message)
    requires Ordered(s) && s.locked.head <= k < s.locked.head + s.size
    ensures forall j: nat :: s.locked.head <= j < s.locked.head + s.size && j != k ==>
      s.slots[k % s.size := m][j % s.size] == s.slots[j % s.size]
  {
    forall j: nat | s.locked.head <= j < s.locked.head + s.size && j != k
      ensures s.slots[k % s.size := m][j % s.size] == s.slots[j % s.size]
    {
      if j < k { ResiduesDistinct(j, k, s.size); } else { ResiduesDistinct(k, j, s.size); }
    }
  }

  /** The ring as constructed: the slots start zero, and every thread is idle. */
  function Init(size: nat, numThreads: nat): (s: State)
    requires size > 0
    ensures Inv(s)
  {
    var s := State(size, QueueRange(0, 0), QueueRange(0, 0), Free, Free,
                   seq(size, _ => EMPTY), seq(numThreads, _ => Idle(NoResult)), [], []);
    FreshInv(s);
    s
  }

  lemma FreshInv(s: State)
    requires s.size > 0 && |s.slots| == s.size && s.log == [] && s.phase == []
    requires s.locked == s.safe == QueueRange(0, 0) && s.safeTailMtx == s.lockedHeadMtx == Free
    requires forall j :: 0 <= j < s.size ==> s.slots[j].word == 0
    requires forall t :: 0 <= t < |s.threads| ==> s.threads[t].Idle?
    ensures Inv(s)
  {
    forall k: nat | s.locked.head <= k < s.locked.head + s.size ensures SlotOk(s, k) {
      assert k % s.size < s.size;
    }
  }

  /** A step that changes no shared word: only the moving thread's own claims are new. */
  lemma MoveInv(s: State, t: nat, pc: Pc)
    requires Inv(s) && t < |s.threads|
    requires !s.threads[t].InRelease? && !(s.threads[t].InEnqueue? && s.threads[t].enq.EnqStore?)
    requires ThreadOk(Goto(s, t, pc), t)
    ensures Inv(Goto(s, t, pc))
  {
    var s' := Goto(s, t, pc);
    forall k: nat | k < |s'.phase| ensures PhaseOk(s', k) { assert PhaseOk(s, k); }
    forall k: nat | s'.locked.head <= k < s'.locked.head + s'.size ensures SlotOk(s', k) { assert SlotOk(s, k); }
    forall u: nat | u < |s'.threads| ensures ThreadOk(s', u) { assert ThreadOk(s, u); }
  }

  /** Taking or dropping one of the two mutexes. */
  lemma MutexInv(s: State, t: nat, s1: State, pc: Pc)
    requires Inv(s) && t < |s.threads|
    requires s.threads[t].InGather? || s.threads[t].InCollect?
    requires s1.safeTailMtx == s.safeTailMtx || {s1.safeTailMtx, s.safeTailMtx} == {Free, By(t)}
    requires s1.lockedHeadMtx == s.lockedHeadMtx || {s1.lockedHeadMtx, s.lockedHeadMtx} == {Free, By(t)}
    requires s1 == s.(safeTailMtx := s1.safeTailMtx, lockedHeadMtx := s1.lockedHeadMtx)
    requires ThreadOk(Goto(s1, t, pc), t)
    ensures Inv(Goto(s1, t, pc))
  {
    var s' := Goto(s1, t, pc);
    forall k: nat | k < |s'.phase| ensures PhaseOk(s', k) { assert PhaseOk(s, k); }
    forall k: nat | s'.locked.head <= k < s'.locked.head + s'.size ensures SlotOk(s', k) { assert SlotOk(s, k); }
    forall u: nat | u < |s'.threads| ensures ThreadOk(s', u) { assert ThreadOk(s, u); }
  }

  lemma BeginInv(s: State, t: nat, call: Call)
    requires Inv(s) && Enabled(s, t, Start(call))
    ensures Inv(Begin(s, t, call))
  {
    assert ThreadOk(s, t);
    if call.Release? && call.range.head < call.range.tail {
      var s' := Begin(s, t, call);
      forall k: nat | k < |s'.phase| ensures PhaseOk(s', k) { assert PhaseOk(s, k); }
      forall k: nat | s'.locked.head <= k < s'.locked.head + s'.size ensures SlotOk(s', k) { assert SlotOk(s, k); }
      forall u: nat | u < |s'.threads| ensures ThreadOk(s', u) { assert ThreadOk(s, u); }
    } else {
      MoveInv(s, t, Begin(s, t, call).threads[t]);
    }
  }

  /** A won CAS of enqueue. */
  lemma ReserveInv(s: State, t: nat, e: EnqueuePc)
    requires Inv(s) && t < |s.threads| && s.threads[t] == InEnqueue(e)
    requires e.EnqCas? && s.locked == e.snap && ThreadOk(s, t)
    ensures Inv(EnqueueAccess(s, t, e))
  {
    var s' := EnqueueAccess(s, t, e);
    forall k: nat | k < |s'.phase| ensures PhaseOk(s', k) {
      if k < |s.phase| { assert PhaseOk(s, k); }
    }
    forall k: nat | s'.locked.head <= k < s'.locked.head + s'.size ensures SlotOk(s', k) { assert SlotOk(s, k); }
    forall u: nat | u < |s'.threads| ensures ThreadOk(s', u) { assert ThreadOk(s, u); }
  }

  /** The store of enqueue. */
  lemma PublishInv(s: State, t: nat, e: EnqueuePc)
    requires Inv(s) && t < |s.threads| && s.threads[t] == InEnqueue(e)
    requires e.EnqStore? && ThreadOk(s, t)
    ensures Inv(EnqueueAccess(s, t, e))
  {
    var s' := EnqueueAccess(s, t, e);
    assert PhaseOk(s, e.index);
    WindowWrite(s, e.index, e.msg);
    forall k: nat | k < |s'.phase| ensures PhaseOk(s', k) { assert PhaseOk(s, k); }
    forall k: nat | s'.locked.head <= k < s'.locked.head + s'.size ensures SlotOk(s', k) { assert SlotOk(s, k); }
    forall u: nat | u < |s'.threads| ensures ThreadOk(s', u) { assert ThreadOk(s, u); }
  }

  lemma GatherInv(s: State, t: nat, g: GatherPc)
    requires Inv(s) && t < |s.threads| && s.threads[t] == InGather(g) && ThreadOk(s, t)
    ensures Inv(GatherAccess(s, t, g))
  {
    var s' := GatherAccess(s, t, g);
    if g.GatSwap? || g.GatUnlock? {
      MutexInv(s, t, s.(safeTailMtx := s'.safeTailMtx), s'.threads[t]);
    } else if g.GatWriteTail? {
      forall k: nat | k < |s'.phase| ensures PhaseOk(s', k) { assert PhaseOk(s, k); }
      forall k: nat | s'.locked.head <= k < s'.locked.head + s'.size ensures SlotOk(s', k) { assert SlotOk(s, k); }
      forall u: nat | u < |s'.threads| ensures ThreadOk(s', u) { assert ThreadOk(s, u); }
    } else {
      if g.GatProbe? { assert SlotOk(s, g.at) && PhaseOk(s, g.at); }
      MoveInv(s, t, s'.threads[t]);
    }
  }

  /** A won CAS of dequeue. */
  lemma TakeInv(s: State, t: nat, d: DequeuePc)
    requires Inv(s) && t < |s.threads| && s.threads[t] == InDequeue(d)
    requires d.DeqCas? && s.safe == d.snap && ThreadOk(s, t)
    ensures Inv(DequeueAccess(s, t, d))
  {
    var s' := DequeueAccess(s, t, d);
    var lo, hi := d.snap.head, d.snap.head + d.num;
    forall k: nat | lo <= k < hi ensures s.phase[k] == Published { assert PhaseOk(s, k); }
    forall k: nat | k < |s'.phase| ensures PhaseOk(s', k) { assert PhaseOk(s, k); }
    forall k: nat | s'.locked.head <= k < s'.locked.head + s'.size ensures SlotOk(s', k) { assert SlotOk(s, k); }
    forall u: nat | u < |s'.threads| ensures ThreadOk(s', u) { assert ThreadOk(s, u); TakeThread(s, t, d, u); }
  }

  lemma TakeThread(s: State, t: nat, d: DequeuePc, u: nat)
    requires Ordered(s) && t < |s.threads| && u < |s.threads| && ThreadOk(s, u)
    requires s.threads[t] == InDequeue(d) && d.DeqCas? && s.safe == d.snap && ThreadOk(s, t)
    requires forall k :: d.snap.head <= k < d.snap.head + d.num ==> s.phase[k] == Published
    ensures Ordered(DequeueAccess(s, t, d)) && ThreadOk(DequeueAccess(s, t, d), u)
  {
    var s' := DequeueAccess(s, t, d);
    if u != t && s.threads[u].InRelease? {
      var end := s.threads[u].end;
      forall k | s.threads[u].i <= k < end ensures s'.phase[k] == Releasing(u) { assert s.phase[k] == Releasing(u); }
    }
  }

  /** One store of release. */
  lemma ClearInv(s: State, t: nat, i: nat, end: nat)
    requires Inv(s) && t < |s.threads| && s.threads[t] == InRelease(i, end) && ThreadOk(s, t)
    ensures Inv(ReleaseAccess(s, t, i, end))
  {
    var s' := ReleaseAccess(s, t, i, end);
    assert PhaseOk(s, i);
    WindowWrite(s, i, s.slots[i % s.size].(word := 0));
    forall k: nat | k < |s'.phase| ensures PhaseOk(s', k) { assert PhaseOk(s, k); }
    forall k: nat | s'.locked.head <= k < s'.locked.head + s'.size ensures SlotOk(s', k) { assert SlotOk(s, k); }
    forall u: nat | u < |s'.threads| ensures ThreadOk(s', u) { assert ThreadOk(s, u); }
  }

  /** Garbage collection moves the window over one released index. */
  lemma AdvanceHeadInv(s: State, t: nat, c: CollectPc)
    requires Inv(s) && t < |s.threads| && s.threads[t] == InCollect(c)
    requires c.GcWriteHead? && ThreadOk(s, t)
    ensures Inv(CollectAccess(s, t, c))
  {
    var s' := CollectAccess(s, t, c);
    var h := s.locked.head;
    forall k: nat | k < |s'.phase| ensures PhaseOk(s', k) { assert PhaseOk(s, k); }
    forall k: nat | s'.locked.head <= k < s'.locked.head + s'.size ensures SlotOk(s', k) {
      if k < h + s.size {
        assert SlotOk(s, k);
      } else {
        assert SlotOk(s, h);
        ResiduesRepeat(h, s.size);
      }
    }
    forall u: nat | u < |s'.threads| ensures ThreadOk(s', u) { assert ThreadOk(s, u); }
  }

  lemma CollectInv(s: State, t: nat, c: CollectPc)
    requires Inv(s) && t < |s.threads| && s.threads[t] == InCollect(c) && ThreadOk(s, t)
    ensures Inv(CollectAccess(s, t, c))
  {
    var s' := CollectAccess(s, t, c);
    if c.GcSwap? || c.GcUnlock? {
      MutexInv(s, t, s.(lockedHeadMtx := s'.lockedHeadMtx), s'.threads[t]);
    } else if c.GcWriteHead? {
      AdvanceHeadInv(s, t, c);
    } else {
      if c.GcProbe? { assert SlotOk(s, c.at) && PhaseOk(s, c.at); }
      MoveInv(s, t, s'.threads[t]);
    }
  }

  /** No step of any thread breaks the invariant. */
  lemma StepInv(s: State, t: nat, a: Action)
    requires Inv(s) && Enabled(s, t, a)
    ensures Inv(Next(s, t, a))
  {
    assert ThreadOk(s, t);
    match a
    case Start(call) => BeginInv(s, t, call);
    case Read(k) =>
    case Advance =>
      match s.threads[t]
      case Idle(_) =>
      case InEnqueue(e) =>
        if e.EnqStore? { PublishInv(s, t, e); }
        else if e.EnqCas? && s.locked == e.snap { ReserveInv(s, t, e); }
        else { MoveInv(s, t, Access(s, t).threads[t]); }
      case InGather(g) => GatherInv(s, t, g);
      case InDequeue(d) =>
        if d.DeqCas? && s.safe == d.snap { TakeInv(s, t, d); } else { MoveInv(s, t, Access(s, t).threads[t]); }
      case InRelease(i, end) => ClearInv(s, t, i, end);
      case InCollect(c) => CollectInv(s, t, c);
  }
}
