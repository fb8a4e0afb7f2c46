/**
  When a whole call of enqueue fails (src/include/std/queue.h:119-150), over runs in which other
  threads do what they like.
 */
module QueueFailures {
  import opened Arithmetic
  import opened Options
  import opened QueueSteps
  import opened QueueFifo

  /** Thread `t` starts no call: all it does belongs to the call it is in. */
  predicate OneCall(acts: seq<Act>, t: nat) {
    forall i :: 0 <= i < |acts| && acts[i].tid == t ==> acts[i].action.Advance?
  }

  /** At some point of the run `t` takes a snapshot of a full ring. */
  ghost predicate SeesFull(s: State, acts: seq<Act>, t: nat)
    requires Inv(s) && Execute(s, acts).Some? && t < |s.threads|
    decreases |acts|
  {
    acts != [] &&
    (StepInv(s, acts[0].tid, acts[0].action);
     || (acts[0] == Act(t, Advance) && s.threads[t].InEnqueue? && s.threads[t].enq.EnqSnapshot?
         && s.locked.tail - s.locked.head == s.size)
     || (SameThreads(s, acts[0].tid, acts[0].action);
         SeesFull(Next(s, acts[0].tid, acts[0].action), acts[1..], t)))
  }

  /** How often threads other than `t` change the locked range. */
  ghost function OthersChange(s: State, acts: seq<Act>, t: nat): nat
    requires Inv(s) && Execute(s, acts).Some?
    decreases |acts|
  {
    if acts == [] then 0
    else
      StepInv(s, acts[0].tid, acts[0].action);
      var s' := Next(s, acts[0].tid, acts[0].action);
      (if acts[0].tid != t && s'.locked != s.locked then 1 else 0) + OthersChange(s', acts[1..], t)
  }

  lemma SameThreads(s: State, u: nat, a: Action)
    requires Inv(s) && Enabled(s, u, a)
    ensures |Next(s, u, a).threads| == |s.threads|
    ensures forall t :: 0 <= t < |s.threads| && t != u ==> Next(s, u, a).threads[t] == s.threads[t]
  {
    assert ThreadOk(s, u);
  }

  /** The changes by others that must still come before the call can fail, if it never sees the ring full. */
  function RacesLeft(s: State, pc: Pc): nat {
    match pc
    case InEnqueue(EnqSnapshot(i, _)) => if i < MAX_RACE_TRIES then MAX_RACE_TRIES - i else 0
    case InEnqueue(EnqCas(i, _, snap)) =>
      var left := if i < MAX_RACE_TRIES then MAX_RACE_TRIES - i else 0;
      if s.locked == snap || left == 0 then left else left - 1
    case _ => 0
  }

  /** Past its CAS the call has an index, and returns it. */
  predicate Won(pc: Pc) {
    (pc.InEnqueue? && pc.enq.EnqStore?) || (pc.Idle? && pc.result.Index? && pc.result.index >= 0)
  }

  lemma {:induction false} WonStays(s: State, acts: seq<Act>, t: nat)
    requires Inv(s) && Execute(s, acts).Some? && t < |s.threads| && OneCall(acts, t) && Won(s.threads[t])
    ensures t < |Execute(s, acts).value.threads| && Won(Execute(s, acts).value.threads[t])
    decreases |acts|
  {
    if acts != [] {
      var u, a := acts[0].tid, acts[0].action;
      StepInv(s, u, a);
      SameThreads(s, u, a);
      assert ThreadOk(s, t);
      WonStays(Next(s, u, a), acts[1..], t);
    }
  }

  /** The step of another thread uses up at most one race, and only by changing the locked range. */
  lemma OtherStep(s: State, u: nat, a: Action, t: nat)
    requires Inv(s) && Enabled(s, u, a) && t < |s.threads| && u != t
    ensures t < |Next(s, u, a).threads| && Next(s, u, a).threads[t] == s.threads[t]
    ensures RacesLeft(s, s.threads[t]) <=
      RacesLeft(Next(s, u, a), s.threads[t]) + if Next(s, u, a).locked != s.locked then 1 else 0
  {
    SameThreads(s, u, a);
  }

  /** A step of the call itself uses up none, unless it wins or sees the ring full. */
  lemma OwnStep(s: State, t: nat)
    requires Inv(s) && Enabled(s, t, Advance) && s.threads[t].InEnqueue?
    requires !(s.threads[t].enq.EnqSnapshot? && s.locked.tail - s.locked.head == s.size)
    ensures t < |Next(s, t, Advance).threads|
    ensures var pc := Next(s, t, Advance).threads[t];
      || Won(pc)
      || ((pc.InEnqueue? || pc == Idle(Index(-1)))
          && RacesLeft(s, s.threads[t]) <= RacesLeft(Next(s, t, Advance), pc))
  {
    EnqueueFailsIff(s, t);
    assert ThreadOk(s, t);
  }

  lemma {:induction false} FailureNeedsRaces(s: State, acts: seq<Act>, t: nat)
    requires Inv(s) && Execute(s, acts).Some? && t < |s.threads| && OneCall(acts, t)
    requires s.threads[t].InEnqueue? || s.threads[t] == Idle(Index(-1))
    requires t < |Execute(s, acts).value.threads| && Execute(s, acts).value.threads[t] == Idle(Index(-1))
    requires !SeesFull(s, acts, t)
    ensures OthersChange(s, acts, t) >= RacesLeft(s, s.threads[t])
    decreases |acts|
  {
    if acts != [] {
      var u, a := acts[0].tid, acts[0].action;
      StepInv(s, u, a);
      SameThreads(s, u, a);
      if u == t {
        assert a.Advance?;
        OwnStep(s, t);
        if Won(Next(s, t, a).threads[t]) {
          WonStays(Next(s, u, a), acts[1..], t);
        } else {
          FailureNeedsRaces(Next(s, u, a), acts[1..], t);
        }
      } else {
        OtherStep(s, u, a, t);
        FailureNeedsRaces(Next(s, u, a), acts[1..], t);
      }
    }
  }

  /**
    A call of enqueue that returns -1 saw the ring full at one of its snapshots, or other threads
    changed the locked range at least ten times while it ran.
   */
  lemma EnqueueFailure(s: State, acts: seq<Act>, t: nat, msg: Message)
    requires Inv(s) && Execute(s, acts).Some? && t < |s.threads| && OneCall(acts, t)
    requires s.threads[t] == InEnqueue(EnqSnapshot(0, msg))
    requires t < |Execute(s, acts).value.threads| && Execute(s, acts).value.threads[t] == Idle(Index(-1))
    ensures SeesFull(s, acts, t) || OthersChange(s, acts, t) >= MAX_RACE_TRIES
  {
    if !SeesFull(s, acts, t) {
      FailureNeedsRaces(s, acts, t);
    }
  }

  // ---------------------------------------------------------------- a call that fails with room left

  lemma {:induction false} ExecuteBoth(s: State, a: seq<Act>, b: seq<Act>)
    requires Inv(s) && Execute(s, a).Some?
    ensures Execute(s, a + b) == Execute(Execute(s, a).value, b)
    decreases |a|
  {
    if a == [] {
      assert a + b == b;
    } else {
      StepInv(s, a[0].tid, a[0].action);
      ExecuteBoth(Next(s, a[0].tid, a[0].action), a[1..], b);
      assert (a + b)[0] == a[0] && (a + b)[1..] == a[1..] + b;
    }
  }

  lemma TailGrows(s: State, u: nat, a: Action)
    requires Inv(s) && Enabled(s, u, a)
    ensures Next(s, u, a).locked.tail >= s.locked.tail && Next(s, u, a).locked.head >= s.locked.head
    ensures Next(s, u, a).size == s.size
  {
    assert ThreadOk(s, u);
  }

  /** A run that ends with fewer reservations since its start than there are slots never saw the ring full. */
  lemma {:induction false} NeverFull(s: State, acts: seq<Act>, t: nat)
    requires Inv(s) && Execute(s, acts).Some? && t < |s.threads|
    ensures s.locked.tail <= Execute(s, acts).value.locked.tail
    ensures Execute(s, acts).value.locked.tail - s.locked.head < s.size ==> !SeesFull(s, acts, t)
    decreases |acts|
  {
    if acts != [] {
      var u, a := acts[0].tid, acts[0].action;
      StepInv(s, u, a);
      SameThreads(s, u, a);
      TailGrows(s, u, a);
      NeverFull(Next(s, u, a), acts[1..], t);
    }
  }

  /** Thread 0 has lost `i` races against thread 1, whose messages are all stored. */
  function Raced(size: nat, msg: Message, i: nat): State {
    Between(size, msg, i,
            if i < MAX_RACE_TRIES then InEnqueue(EnqSnapshot(i, msg)) else Idle(Index(-1)),
            Idle(if i == 0 then NoResult else Index(i - 1)))
  }

  function Between(size: nat, msg: Message, i: nat, pc0: Pc, pc1: Pc): State {
    State(size, QueueRange(0, i), QueueRange(0, 0), Free, Free,
          seq(size, k requires 0 <= k => if k < i then msg else EMPTY),
          [pc0, pc1], seq(i, _ => msg), seq(i, _ => Published))
  }

  /** A round: a snapshot by thread 0, a whole call by thread 1, and the lost CAS. */
  function Round(msg: Message): seq<Act> {
    [Act(0, Advance), Act(1, Start(Enqueue(msg))), Act(1, Advance), Act(1, Advance), Act(1, Advance), Act(0, Advance)]
  }

  function LosingRun(msg: Message, n: nat): seq<Act> {
    if n == 0 then [] else LosingRun(msg, n - 1) + Round(msg)
  }

  predicate StepsTo(s: State, u: nat, a: Action, s': State) {
    Inv(s) ==> Enabled(s, u, a) && Next(s, u, a) == s'
  }

  lemma TakesSnapshot(size: nat, msg: Message, i: nat, tries: nat, pc1: Pc)
    requires i < size
    ensures StepsTo(Between(size, msg, i, InEnqueue(EnqSnapshot(tries, msg)), pc1), 0, Advance,
                    Between(size, msg, i, InEnqueue(EnqCas(tries, msg, QueueRange(0, i))), pc1))
    ensures StepsTo(Between(size, msg, i, pc1, InEnqueue(EnqSnapshot(tries, msg))), 1, Advance,
                    Between(size, msg, i, pc1, InEnqueue(EnqCas(tries, msg, QueueRange(0, i)))))
  {
  }

  lemma StartsCall(size: nat, msg: Message, i: nat, pc0: Pc, result: Result)
    requires msg.word != 0
    ensures StepsTo(Between(size, msg, i, pc0, Idle(result)), 1, Start(Enqueue(msg)),
                    Between(size, msg, i, pc0, InEnqueue(EnqSnapshot(0, msg))))
  {
  }

  function Reserving(size: nat, msg: Message, i: nat, pc0: Pc): State {
    Between(size, msg, i, pc0, InEnqueue(EnqStore(msg, i)))
      .(locked := QueueRange(0, i + 1), log := seq(i + 1, _ => msg), phase := seq(i, _ => Published) + [Reserved(1)])
  }

  lemma WinsCas(size: nat, msg: Message, i: nat, pc0: Pc)
    ensures StepsTo(Between(size, msg, i, pc0, InEnqueue(EnqCas(0, msg, QueueRange(0, i)))), 1, Advance,
                    Reserving(size, msg, i, pc0))
  {
    assert seq(i, _ => msg) + [msg] == seq(i + 1, _ => msg);
  }

  lemma Stores(size: nat, msg: Message, i: nat, pc0: Pc)
    requires i < size
    ensures StepsTo(Reserving(size, msg, i, pc0), 1, Advance, Between(size, msg, i + 1, pc0, Idle(Index(i))))
  {
    var s, s' := Reserving(size, msg, i, pc0), Between(size, msg, i + 1, pc0, Idle(Index(i)));
    ResidueSmall(i, size);
    assert s.slots[i := msg] == s'.slots;
    assert s.phase[i := Published] == s'.phase;
  }

  lemma LosesCas(size: nat, msg: Message, i: nat, tries: nat, pc1: Pc)
    ensures StepsTo(Between(size, msg, i + 1, InEnqueue(EnqCas(tries, msg, QueueRange(0, i))), pc1), 0, Advance,
                    Between(size, msg, i + 1,
                            if tries + 1 < MAX_RACE_TRIES then InEnqueue(EnqSnapshot(tries + 1, msg))
                            else Idle(Index(-1)),
                            pc1))
  {
  }

  lemma RoundRuns(size: nat, msg: Message, i: nat)
    requires i < MAX_RACE_TRIES < size && msg.word != 0 && Inv(Raced(size, msg, i))
    ensures Execute(Raced(size, msg, i), Round(msg)) == Some(Raced(size, msg, i + 1))
  {
    var r := Round(msg);
    var pc0, result := InEnqueue(EnqCas(i, msg, QueueRange(0, i))), if i == 0 then NoResult else Index(i - 1);
    var s0, s1 := Raced(size, msg, i), Between(size, msg, i, pc0, Idle(result));
    var s2 := Between(size, msg, i, pc0, InEnqueue(EnqSnapshot(0, msg)));
    var s3 := Between(size, msg, i, pc0, InEnqueue(EnqCas(0, msg, QueueRange(0, i))));
    var s4, s5 := Reserving(size, msg, i, pc0), Between(size, msg, i + 1, pc0, Idle(Index(i)));
    TakesSnapshot(size, msg, i, i, Idle(result));
    StartsCall(size, msg, i, pc0, result);
    TakesSnapshot(size, msg, i, 0, pc0);
    WinsCas(size, msg, i, pc0);
    Stores(size, msg, i, pc0);
    LosesCas(size, msg, i, i, Idle(Index(i)));
    var adv0, adv1, end := Act(0, Advance), Act(1, Advance), Raced(size, msg, i + 1);
    var r5 := [adv0] + [];
    var r4 := [adv1] + r5;
    var r3 := [adv1] + r4;
    var r2 := [adv1] + r3;
    var r1 := [Act(1, Start(Enqueue(msg)))] + r2;
    assert Round(msg) == [adv0] + r1;
    hide *;
    ExecuteStep(s0, adv0, s1, r1);
    ExecuteStep(s1, Act(1, Start(Enqueue(msg))), s2, r2);
    ExecuteStep(s2, adv1, s3, r3);
    ExecuteStep(s3, adv1, s4, r4);
    ExecuteStep(s4, adv1, s5, r5);
    ExecuteStep(s5, adv0, end, []);
    ExecuteNone(end);
  }

  lemma ExecuteStep(s: State, a: Act, s': State, rest: seq<Act>)
    requires Inv(s) && StepsTo(s, a.tid, a.action, s')
    ensures Inv(s') && Execute(s, [a] + rest) == Execute(s', rest)
  {
    StepInv(s, a.tid, a.action);
    assert ([a] + rest)[1..] == rest;
  }

  lemma ExecuteNone(s: State)
    requires Inv(s)
    ensures Execute(s, []) == Some(s)
  {
  }

  lemma RaceStarts(size: nat, msg: Message)
    requires size > 0 && msg.word != 0
    ensures Begin(Init(size, 2), 0, Enqueue(msg)) == Raced(size, msg, 0) && Inv(Raced(size, msg, 0))
  {
    StepInv(Init(size, 2), 0, Start(Enqueue(msg)));
    assert Begin(Init(size, 2), 0, Enqueue(msg)) == Raced(size, msg, 0);
  }

  lemma {:induction false} LosingRuns(size: nat, msg: Message, n: nat)
    requires n <= MAX_RACE_TRIES < size && msg.word != 0
    ensures Inv(Raced(size, msg, 0)) && OneCall(LosingRun(msg, n), 0)
    ensures Execute(Raced(size, msg, 0), LosingRun(msg, n)) == Some(Raced(size, msg, n))
  {
    hide Inv, Raced;
    RaceStarts(size, msg);
    if n > 0 {
      LosingRuns(size, msg, n - 1);
      ExecuteBoth(Raced(size, msg, 0), LosingRun(msg, n - 1), Round(msg));
      RoundRuns(size, msg, n - 1);
    }
  }

  /** In a ring of any size above ten, thread 0 can get -1 although it never saw the ring full, and room is left. */
  lemma FailsWithRoom(size: nat, msg: Message)
    requires size > MAX_RACE_TRIES && msg.word != 0
    ensures var s, acts := Begin(Init(size, 2), 0, Enqueue(msg)), LosingRun(msg, MAX_RACE_TRIES);
      && s.threads[0] == InEnqueue(EnqSnapshot(0, msg))
      && Inv(s) && Execute(s, acts).Some? && OneCall(acts, 0)
      && var end := Execute(s, acts).value;
         |end.threads| == 2 && end.threads[0] == Idle(Index(-1)) && end.locked.tail - end.locked.head < end.size
         && !SeesFull(s, acts, 0)
  {
    LosingRuns(size, msg, MAX_RACE_TRIES);
    RaceStarts(size, msg);
    NeverFull(Raced(size, msg, 0), LosingRun(msg, MAX_RACE_TRIES), 0);
  }
}
