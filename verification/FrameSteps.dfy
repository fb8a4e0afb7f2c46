/**
  The frame allocator of src/system/memory.cpp under any interleaving: threads take blocks of
  the bitmap of src/include/std/bitset.h by swapping in all ones, mark frames in their own copy
  of the bits, and store the copy back. A call of virt_alloc_pages may start an allocation of a
  page table while it still holds a block.
 */
module FrameSteps {
  import opened BitOps
  import opened BitAllocation
  import opened FrameLists

  /** phys_alloc_page, or virt_alloc_pages with so many pages left to map. */
  datatype Call = Page | Virt(left: nat)

  /** `waiting`: a page table had to be allocated for the page about to be mapped. */
  datatype Pc =
    | Idle
    | Search(i: nat, call: Call)
    | Held(i: nat, bits: Word, at: nat, call: Call, waiting: bool)
    | Finish(i: nat, bits: Word)

  /**
    Each thread has two agents: number 2t runs its call, 2t + 1 the allocation of a page table
    in the middle of that call. `marked` and `given` are history: the bits really in use, also
    where the word in memory is all ones because the block is held, and the frames handed out.
   */
  datatype State = State(blocks: seq<Word>, agents: seq<Pc>, marked: seq<Word>, given: seq<nat>)

  datatype Step = Begin(start: nat, call: Call) | Swap | TakePage | Look | NeedTable | MapPage | Unlock

  predicate Holds(p: Pc, i: nat) {
    (p.Held? || p.Finish?) && p.i == i
  }

  /** Nested agents allocate single pages, while their outer call waits. */
  predicate MayBegin(s: State, a: nat, call: Call)
    requires a < |s.agents|
  {
    if a % 2 == 1 then call.Page? && s.agents[a - 1].Held? && s.agents[a - 1].waiting
    else call.Page? || call.left > 0
  }

  predicate TableReady(s: State, a: nat)
    requires a < |s.agents| && s.agents[a].Held?
  {
    s.agents[a].waiting ==> a + 1 < |s.agents| && s.agents[a + 1].Idle?
  }

  predicate Enabled(s: State, a: nat, step: Step) {
    && a < |s.agents|
    && var p := s.agents[a];
       match step
       case Begin(_, call) => p.Idle? && MayBegin(s, a, call)
       case Swap => p.Search?
       case TakePage => p.Held? && p.call.Page?
       case Look => p.Held? && p.call.Virt? && !p.waiting && (p.bits == Full() || (p.at < 32 && p.at in p.bits))
       case NeedTable => p.Held? && p.call.Virt? && !p.waiting && p.at < 32 && p.at !in p.bits
       case MapPage => p.Held? && p.call.Virt? && p.call.left > 0 && p.at < 32 && p.at !in p.bits && TableReady(s, a)
       case Unlock => p.Finish?
  }

  /** One turn of the loop of lock_next_block; past the last block the call fails. */
  function SwapStep(s: State, a: nat): State
    requires Enabled(s, a, Swap)
  {
    var p := s.agents[a];
    if p.i >= |s.blocks| then s.(agents := s.agents[a := Idle])
    else
      var bits := s.blocks[p.i];
      s.(blocks := s.blocks[p.i := Full()],
         agents := s.agents[a :=
           if bits == Full() then Search(p.i + 1, p.call)
           // index 0 is also lock_next_block's failure, so virt_alloc_pages stops there
           else if p.i == 0 && p.call.Virt? then Idle
           else Held(p.i, bits, 0, p.call, false)])
  }

  function Record(s: State, i: nat, k: Bit): State
    requires i < |s.marked|
  {
    s.(marked := s.marked[i := s.marked[i] + {k}], given := s.given + [32 * i + k])
  }

  predicate InBounds(s: State) {
    && |s.marked| == |s.blocks|
    && forall a :: 0 <= a < |s.agents| ==> s.agents[a].Held? || s.agents[a].Finish? ==> s.agents[a].i < |s.blocks|
  }

  /** The step indexes the bitmap within bounds and looks for a clear bit only where there is one. */
  predicate Safe(s: State, a: nat, step: Step)
    requires Enabled(s, a, step)
  {
    InBounds(s) && (step.TakePage? ==> s.agents[a].bits != Full())
  }

  function Apply(s: State, a: nat, step: Step): State
    requires Enabled(s, a, step) && Safe(s, a, step)
  {
    var p := s.agents[a];
    match step
    case Begin(start, call) => s.(agents := s.agents[a := Search(start, call)])
    case Swap => SwapStep(s, a)
    case TakePage =>
      var k := LowestZero(p.bits);
      Record(s.(blocks := s.blocks[p.i := p.bits + {k}], agents := s.agents[a := Idle]), p.i, k)
    case Look =>
      s.(agents := s.agents[a := if p.bits == Full() then Search(p.i, p.call) else p.(at := p.at + 1)])
    case NeedTable => s.(agents := s.agents[a := p.(waiting := true)])
    case MapPage =>
      var left := p.call.left - 1;
      var bits := p.bits + {p.at};
      Record(s.(agents := s.agents[a :=
        if left == 0 then Finish(p.i, bits) else Held(p.i, bits, p.at + 1, Virt(left), false)]), p.i, p.at)
    case Unlock =>
      s.(blocks := s.blocks[p.i := p.bits], agents := s.agents[a := Idle])
  }

  // ---------------------------------------------------------------- the invariant

  /** An agent that holds a block knows its real bits, and has gone past set bits only. */
  predicate AgentOk(p: Pc, blocks: seq<Word>, marked: seq<Word>)
    requires |marked| == |blocks|
  {
    && (p.Held? || p.Finish? ==> p.i < |blocks| && blocks[p.i] == Full() && marked[p.i] == p.bits)
    && (p.Held? ==> p.at <= 32 && forall k: Bit :: k < p.at ==> k in p.bits)
    && (p.Held? && p.call.Page? ==> p.bits != Full())
    && (p.Held? && p.waiting ==> p.at < 32 && p.at !in p.bits)
    && ((p.Held? || p.Search?) && p.call.Virt? ==> p.call.left > 0)
  }

  predicate AgentsOk(s: State)
    requires |s.marked| == |s.blocks|
  {
    forall a :: 0 <= a < |s.agents| ==> AgentOk(s.agents[a], s.blocks, s.marked)
  }

  /** No two agents hold the same block. */
  ghost predicate OneHolder(agents: seq<Pc>) {
    forall a, b, i {:trigger Holds(agents[a], i), Holds(agents[b], i)} ::
      0 <= a < |agents| && 0 <= b < |agents| && Holds(agents[a], i) && Holds(agents[b], i) ==> a == b
  }

  /** A block in memory shows its real bits, or all ones while somebody holds it. */
  predicate BlockOk(s: State, i: nat)
    requires i < |s.blocks| == |s.marked|
  {
    s.blocks[i] == s.marked[i] || exists a :: 0 <= a < |s.agents| && Holds(s.agents[a], i)
  }

  predicate BlocksOk(s: State)
    requires |s.marked| == |s.blocks|
  {
    forall i :: 0 <= i < |s.blocks| ==> BlockOk(s, i)
  }

  /** The used frames are those used at the start and those handed out, none of them twice. */
  predicate Accounted(s: State, initial: set<nat>) {
    && NoneTwice(s.given)
    && (forall f :: f in s.given ==> f < 32 * |s.marked| && f !in initial)
    && (forall f :: 0 <= f < 32 * |s.marked| ==> (Taken(s.marked, f) <==> f in initial || f in s.given))
  }

  /** Block 0 is all ones, which start-up sees to by reserving the low 4 MB. */
  ghost predicate Inv(s: State, initial: set<nat>) {
    && |s.marked| == |s.blocks| > 0
    && AgentsOk(s)
    && OneHolder(s.agents)
    && BlocksOk(s)
    && Accounted(s, initial)
    && s.blocks[0] == Full() == s.marked[0]
  }

  lemma RecordAccounted(s: State, i: nat, k: Bit, initial: set<nat>)
    requires i < |s.marked| && k !in s.marked[i] && Accounted(s, initial)
    ensures Accounted(Record(s, i, k), initial)
  {
    var s', f := Record(s, i, k), 32 * i + k;
    assert f / 32 == i && f % 32 == k;
    assert s'.marked == Marked(s.marked, f);
    MarkedTakes(s.marked, f);
    assert f !in s.given && f !in initial;
  }

  // ---------------------------------------------------------------- the steps keep it

  /** Agents that hold nothing do not matter for who holds what. */
  lemma SameBlocks(s: State, s': State, a: nat)
    requires |s.marked| == |s.blocks| && a < |s.agents|
    requires BlocksOk(s) && s'.blocks == s.blocks && s'.marked == s.marked
    requires |s'.agents| == |s.agents| && s'.agents == s.agents[a := s'.agents[a]]
    requires forall i :: 0 <= i < |s.blocks| && Holds(s.agents[a], i) ==>
      Holds(s'.agents[a], i) || s.blocks[i] == s.marked[i]
    ensures BlocksOk(s')
  {
    forall i | 0 <= i < |s'.blocks|
      ensures BlockOk(s', i)
    {
      assert BlockOk(s, i);
      if s.blocks[i] != s.marked[i] {
        var b :| 0 <= b < |s.agents| && Holds(s.agents[b], i);
        assert Holds(s'.agents[b], i);
      }
    }
  }

  lemma InvSafe(s: State, initial: set<nat>)
    requires Inv(s, initial)
    ensures InBounds(s)
  {
    assert forall b :: 0 <= b < |s.agents| ==> AgentOk(s.agents[b], s.blocks, s.marked);
  }

  lemma MoveInv(s: State, a: nat, step: Step, initial: set<nat>)
    requires Inv(s, initial) && Enabled(s, a, step) && (step.Begin? || step.Look? || step.NeedTable?)
    ensures Safe(s, a, step) && Inv(Apply(s, a, step), initial)
  {
    InvSafe(s, initial);
    var s' := Apply(s, a, step);
    var p := s.agents[a];
    assert AgentOk(p, s.blocks, s.marked);
    assert forall i :: Holds(s'.agents[a], i) ==> Holds(p, i);
    SameBlocks(s, s', a);
    forall b | 0 <= b < |s'.agents|
      ensures AgentOk(s'.agents[b], s'.blocks, s'.marked)
    {
      assert AgentOk(s.agents[b], s.blocks, s.marked);
    }
  }

  lemma SwapInv(s: State, a: nat, initial: set<nat>)
    requires Inv(s, initial) && Enabled(s, a, Swap)
    ensures Safe(s, a, Swap) && Inv(Apply(s, a, Swap), initial)
  {
    hide Accounted;
    InvSafe(s, initial);
    var s' := Apply(s, a, Swap);
    var i := s.agents[a].i;
    if i < |s.blocks| && s.blocks[i] != Full() {
      assert forall b :: 0 <= b < |s.agents| && Holds(s.agents[b], i) ==> AgentOk(s.agents[b], s.blocks, s.marked);
      assert BlockOk(s, i);
      assert Holds(s'.agents[a], i);
      forall j | 0 <= j < |s'.blocks|
        ensures BlockOk(s', j)
      {
        assert BlockOk(s, j);
        if j != i && s.blocks[j] != s.marked[j] {
          var b :| 0 <= b < |s.agents| && Holds(s.agents[b], j);
          assert Holds(s'.agents[b], j);
        }
      }
    } else {
      if i < |s.blocks| { assert s'.blocks == s.blocks; }
      SameBlocks(s, s', a);
    }
    forall b | 0 <= b < |s'.agents|
      ensures AgentOk(s'.agents[b], s'.blocks, s'.marked)
    {
      assert AgentOk(s.agents[b], s.blocks, s.marked);
    }
    assert Accounted(s', initial) by { SameAccounts(s, s', initial); }
  }

  lemma SameAccounts(s: State, s': State, initial: set<nat>)
    requires Accounted(s, initial) && s'.marked == s.marked && s'.given == s.given
    ensures Accounted(s', initial)
  {
  }

  /** Storing the bits of a held block and letting go of it. */
  lemma ReleaseInv(s: State, s': State, a: nat, i: nat)
    requires |s.marked| == |s.blocks| && a < |s.agents| && i < |s.blocks|
    requires AgentsOk(s) && OneHolder(s.agents) && BlocksOk(s) && Holds(s.agents[a], i)
    requires |s'.marked| == |s.marked| && s'.marked == s.marked[i := s'.marked[i]]
    requires s'.blocks == s.blocks[i := s'.marked[i]]
    requires s'.agents == s.agents[a := Idle]
    ensures AgentsOk(s') && OneHolder(s'.agents) && BlocksOk(s')
  {
    forall j | 0 <= j < |s'.blocks|
      ensures BlockOk(s', j)
    {
      assert BlockOk(s, j);
      if j != i && s.blocks[j] != s.marked[j] {
        var b :| 0 <= b < |s.agents| && Holds(s.agents[b], j);
        assert Holds(s'.agents[b], j);
      }
    }
    forall b | 0 <= b < |s'.agents|
      ensures AgentOk(s'.agents[b], s'.blocks, s'.marked)
    {
      assert AgentOk(s.agents[b], s.blocks, s.marked);
      if b != a { assert !Holds(s.agents[b], i); }
    }
  }

  lemma TakePageInv(s: State, a: nat, initial: set<nat>)
    requires Inv(s, initial) && Enabled(s, a, TakePage)
    ensures Safe(s, a, TakePage) && Inv(Apply(s, a, TakePage), initial)
  {
    var p := s.agents[a];
    assert AgentOk(p, s.blocks, s.marked);
    InvSafe(s, initial);
    var s', k := Apply(s, a, TakePage), LowestZero(p.bits);
    RecordAccounted(s, p.i, k, initial);
    SameAccounts(Record(s, p.i, k), s', initial);
    hide Accounted;
    assert s.marked[p.i] == p.bits;
    ReleaseInv(s, s', a, p.i);
    assert p.i != 0;
  }

  lemma UnlockInv(s: State, a: nat, initial: set<nat>)
    requires Inv(s, initial) && Enabled(s, a, Unlock)
    ensures Safe(s, a, Unlock) && Inv(Apply(s, a, Unlock), initial)
  {
    hide Accounted;
    InvSafe(s, initial);
    var p, s' := s.agents[a], Apply(s, a, Unlock);
    assert AgentOk(p, s.blocks, s.marked);
    ReleaseInv(s, s', a, p.i);
    SameAccounts(s, s', initial);
  }

  lemma MapPageInv(s: State, a: nat, initial: set<nat>)
    requires Inv(s, initial) && Enabled(s, a, MapPage)
    ensures Safe(s, a, MapPage) && Inv(Apply(s, a, MapPage), initial)
  {
    InvSafe(s, initial);
    var p, s' := s.agents[a], Apply(s, a, MapPage);
    assert AgentOk(p, s.blocks, s.marked);
    RecordAccounted(s, p.i, p.at, initial);
    SameAccounts(Record(s, p.i, p.at), s', initial);
    hide Accounted;
    assert Holds(p, p.i) && Holds(s'.agents[a], p.i);
    assert forall i :: Holds(s'.agents[a], i) ==> Holds(p, i);
    forall j | 0 <= j < |s'.blocks|
      ensures BlockOk(s', j)
    {
      assert BlockOk(s, j);
      if j != p.i && s.blocks[j] != s.marked[j] {
        var b :| 0 <= b < |s.agents| && Holds(s.agents[b], j);
        assert Holds(s'.agents[b], j);
      }
    }
    forall b | 0 <= b < |s'.agents|
      ensures AgentOk(s'.agents[b], s'.blocks, s'.marked)
    {
      assert AgentOk(s.agents[b], s.blocks, s.marked);
      if b != a { assert !Holds(s.agents[b], p.i); }
    }
    assert p.i != 0;
  }

  /** Every step keeps the invariant; in particular a swapped-out block has one holder. */
  lemma StepInv(s: State, a: nat, step: Step, initial: set<nat>)
    requires Inv(s, initial) && Enabled(s, a, step)
    ensures Safe(s, a, step) && Inv(Apply(s, a, step), initial)
  {
    hide Inv, Enabled, Apply;
    match step
    case Swap => SwapInv(s, a, initial);
    case TakePage => TakePageInv(s, a, initial);
    case MapPage => MapPageInv(s, a, initial);
    case Unlock => UnlockInv(s, a, initial);
    case _ => MoveInv(s, a, step, initial);
  }

  // ---------------------------------------------------------------- whole runs

  datatype Move = Move(agent: nat, step: Step)

  /** The state after a run of moves, each of which can be made and indexes the bitmap in bounds. */
  ghost predicate Runs(s: State, moves: seq<Move>, end: State)
    decreases |moves|
  {
    if moves == [] then end == s
    else
      var m := moves[0];
      Enabled(s, m.agent, m.step) && Safe(s, m.agent, m.step)
      && Runs(Apply(s, m.agent, m.step), moves[1..], end)
  }

  lemma {:induction false} RunInv(s: State, moves: seq<Move>, end: State, initial: set<nat>)
    requires Inv(s, initial) && Runs(s, moves, end)
    ensures Inv(end, initial)
    decreases |moves|
  {
    if moves != [] {
      StepInv(s, moves[0].agent, moves[0].step, initial);
      RunInv(Apply(s, moves[0].agent, moves[0].step), moves[1..], end, initial);
    }
  }

  predicate Starting(s: State) {
    && |s.blocks| >= LOW_FRAMES / 32
    && AllTaken(s.blocks, 0, LOW_FRAMES)
    && s.marked == s.blocks
    && s.given == []
    && forall a :: 0 <= a < |s.agents| ==> s.agents[a].Idle?
  }

  lemma StartingInv(s: State)
    requires Starting(s)
    ensures Inv(s, UsedBits(s.blocks))
  {
    forall k: Bit | true
      ensures k in s.blocks[0]
    {
      assert Taken(s.blocks, k);
    }
    assert s.blocks[0] == Full();
  }

  /**
    However the calls interleave: no two of them hold a block at once, no frame is handed out
    twice, none was in use at the start, and so none is in the low 4 MB.
   */
  lemma FramesOnce(s: State, moves: seq<Move>, end: State)
    requires Starting(s) && Runs(s, moves, end)
    ensures OneHolder(end.agents) && NoneTwice(end.given)
    ensures forall f :: f in end.given ==> LOW_FRAMES <= f < 32 * |end.blocks| && f !in UsedBits(s.blocks)
  {
    StartingInv(s);
    RunInv(s, moves, end, UsedBits(s.blocks));
    assert forall f :: 0 <= f < LOW_FRAMES ==> f in UsedBits(s.blocks);
  }

  /** Once nobody holds a block, the bitmap shows exactly the frames used at the start or handed out since. */
  lemma NothingLost(s: State, moves: seq<Move>, end: State)
    requires Starting(s) && Runs(s, moves, end)
    requires forall a :: 0 <= a < |end.agents| ==> !end.agents[a].Held? && !end.agents[a].Finish?
    ensures UsedBits(end.blocks) == UsedBits(s.blocks) + Elements(end.given)
    ensures |UsedBits(end.blocks)| == |UsedBits(s.blocks)| + |end.given|
  {
    var initial := UsedBits(s.blocks);
    StartingInv(s);
    RunInv(s, moves, end, initial);
    forall i | 0 <= i < |end.blocks|
      ensures end.blocks[i] == end.marked[i]
    {
      assert BlockOk(end, i);
    }
    assert end.blocks == end.marked;
    SameSize(s, moves, end);
    CountGiven(end.given);
    assert initial !! Elements(end.given);
  }

  lemma {:induction false} SameSize(s: State, moves: seq<Move>, end: State)
    requires Runs(s, moves, end)
    ensures |end.blocks| == |s.blocks|
    decreases |moves|
  {
    if moves != [] {
      SameSize(Apply(s, moves[0].agent, moves[0].step), moves[1..], end);
    }
  }
}
