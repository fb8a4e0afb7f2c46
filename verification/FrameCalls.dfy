/**
  Whole calls of the frame allocator (src/system/memory.cpp, src/include/std/bitset.h): what one was
  given while others interfere, and what it does alone.
 */
module FrameCalls {
  import opened BitOps
  import opened BitAllocation
  import opened FrameSteps
  import opened PageTables

  /** Agent `a` begins no call: all it does belongs to the call it is in. */
  predicate OneCall(moves: seq<Move>, a: nat) {
    forall i :: 0 <= i < |moves| && moves[i].agent == a ==> !moves[i].step.Begin?
  }

  /** The frames handed out by the steps of agent `a`. */
  function GivenBy(s: State, moves: seq<Move>, a: nat): seq<nat>
    decreases |moves|
  {
    if moves == [] || !Enabled(s, moves[0].agent, moves[0].step) || !Safe(s, moves[0].agent, moves[0].step) then []
    else
      var s' := Apply(s, moves[0].agent, moves[0].step);
      (if moves[0].agent == a && |s'.given| > |s.given| then [s'.given[|s'.given| - 1]] else [])
      + GivenBy(s', moves[1..], a)
  }

  /** At one of its swaps `a` finds all bits of block `i` set. */
  predicate SeesFull(s: State, moves: seq<Move>, a: nat, i: nat)
    decreases |moves|
  {
    && moves != [] && Enabled(s, moves[0].agent, moves[0].step) && Safe(s, moves[0].agent, moves[0].step)
    && (|| (&& moves[0] == Move(a, Swap) && i < |s.blocks|
            && s.agents[a].i == i && s.blocks[i] == Full())
        || SeesFull(Apply(s, moves[0].agent, moves[0].step), moves[1..], a, i))
  }

  /** The frames a call may still be given. */
  function Wanted(p: Pc): nat {
    match p
    case Search(_, Page) => 1
    case Search(_, Virt(left)) => left
    case Held(_, _, _, Page, _) => 1
    case Held(_, _, _, Virt(left), _) => left
    case _ => 0
  }

  function Position(p: Pc): nat {
    match p
    case Search(i, _) => i
    case Held(i, _, _, _, _) => i
    case Finish(i, _) => i
    case Idle => 0
  }

  /** The call, in state `p` at `s`, got all it wanted by the end, or saw every block from its position on full. */
  predicate Outcome(s: State, moves: seq<Move>, a: nat, p: Pc) {
    var mine := GivenBy(s, moves, a);
    && (forall f :: f in mine ==> f / 32 >= Position(p))
    && (|| |mine| == Wanted(p)
        || (&& |mine| < Wanted(p) && (p.Held? ==> p.call.Virt?)
            && forall i :: Position(p) <= i < |s.blocks| ==> SeesFull(s, moves, a, i)))
  }

  /** The first move of a run, and what it adds to the account of `a`. */
  lemma FirstMove(s: State, moves: seq<Move>, end: State, a: nat, initial: set<nat>)
    requires Inv(s, initial) && moves != [] && Runs(s, moves, end) && OneCall(moves, a)
    ensures var b, step, rest := moves[0].agent, moves[0].step, moves[1..];
      && Enabled(s, b, step) && Safe(s, b, step)
      && var s' := Apply(s, b, step);
         && Inv(s', initial) && Runs(s', rest, end) && OneCall(rest, a)
         && |s'.agents| == |s.agents| && |s'.blocks| == |s.blocks|
         && (b != a && a < |s.agents| ==> s'.agents[a] == s.agents[a])
         && GivenBy(s, moves, a) ==
              (if b == a && |s'.given| > |s.given| then [s'.given[|s'.given| - 1]] else []) + GivenBy(s', rest, a)
         && (forall i :: SeesFull(s', rest, a, i) ==> SeesFull(s, moves, a, i))
  {
    StepInv(s, moves[0].agent, moves[0].step, initial);
  }

  /** A step of the call itself: what it is given, and what is left to be done. */
  lemma OwnMove(s: State, a: nat, step: Step, initial: set<nat>)
    requires Inv(s, initial) && Enabled(s, a, step) && Safe(s, a, step) && !step.Begin?
    ensures var s', p := Apply(s, a, step), s.agents[a];
      && a < |s'.agents|
      && var p' := s'.agents[a];
         var news := if |s'.given| > |s.given| then [s'.given[|s'.given| - 1]] else [];
         && |news| + Wanted(p') <= Wanted(p)
         && (forall f :: f in news ==> f / 32 == Position(p))
         && (|| (|news| + Wanted(p') == Wanted(p) && (Position(p') == Position(p) || p'.Idle?)
                 && (p'.Held? && p'.call.Page? ==> p.Search? && p.call.Page?))
             || (news == [] && p.Search? && p'.Search? && p'.call == p.call
                 && p'.i == p.i + 1 && p.i < |s.blocks| && s.blocks[p.i] == Full() && step == Swap)
             || (news == [] && p.Search? && p'.Idle? && p.i >= |s.blocks|))
  {
    assert AgentOk(s.agents[a], s.blocks, s.marked);
    var p := s.agents[a];
    if p.Held? && (step.TakePage? || step.MapPage?) {
      var k := if step.TakePage? then LowestZero(p.bits) else p.at;
      assert (32 * p.i + k) / 32 == p.i;
    }
  }

  lemma {:induction false} StaysIdle(s: State, moves: seq<Move>, end: State, a: nat, initial: set<nat>)
    requires Inv(s, initial) && Runs(s, moves, end) && OneCall(moves, a) && a < |s.agents| && s.agents[a].Idle?
    ensures a < |end.agents| && end.agents[a].Idle? && GivenBy(s, moves, a) == []
    decreases |moves|
  {
    if moves != [] {
      FirstMove(s, moves, end, a, initial);
      StaysIdle(Apply(s, moves[0].agent, moves[0].step), moves[1..], end, a, initial);
    }
  }

  lemma {:induction false} CallOutcome(s: State, moves: seq<Move>, end: State, a: nat, initial: set<nat>)
    requires Inv(s, initial) && Runs(s, moves, end) && OneCall(moves, a) && a < |s.agents|
    requires a < |end.agents| && end.agents[a].Idle?
    ensures Outcome(s, moves, a, s.agents[a])
    decreases |moves|
  {
    if moves != [] {
      var b, step, rest := moves[0].agent, moves[0].step, moves[1..];
      FirstMove(s, moves, end, a, initial);
      var s' := Apply(s, b, step);
      CallOutcome(s', rest, end, a, initial);
      if b == a { OwnMove(s, a, step, initial); }
    }
  }

  /**
    Whatever the others do, a call that has ended was given as many frames as it asked for, or fewer
    after it found every block from its random start on full.
   */
  lemma CallGives(s: State, a: nat, start: nat, call: Call, moves: seq<Move>, end: State, initial: set<nat>)
    requires Inv(s, initial) && Runs(s, [Move(a, Begin(start, call))] + moves, end) && OneCall(moves, a)
    requires a < |end.agents| && end.agents[a].Idle?
    ensures var all, wanted := [Move(a, Begin(start, call))] + moves, if call.Page? then 1 else call.left;
      var mine := GivenBy(s, all, a);
      && (forall f :: f in mine ==> 32 * start <= f)
      && (|| |mine| == wanted
          || (|mine| < wanted && forall i :: start <= i < |s.blocks| ==> SeesFull(s, all, a, i)))
  {
    var begin := Move(a, Begin(start, call));
    var all := [begin] + moves;
    assert all[1..] == moves;
    StepInv(s, a, begin.step, initial);
    CallOutcome(Apply(s, a, begin.step), moves, end, a, initial);
  }

  // ---------------------------------------------------------------- alone

  predicate Alone(moves: seq<Move>, a: nat) {
    forall i :: 0 <= i < |moves| ==> moves[i].agent == a && !moves[i].step.Begin?
  }

  /** The state with agent `a` at block `i` in its search for one frame. */
  function Searching(s: State, a: nat, i: nat): State
    requires a < |s.agents|
  {
    s.(agents := s.agents[a := Search(i, Page)])
  }

  /** What one search from block `i` on ends in: the first clear frame, or nothing. */
  predicate PageEnd(s: State, a: nat, i: nat, end: State)
    requires a < |s.agents|
  {
    && end.agents == s.agents[a := Idle]
    && if FullBlocks(s.blocks, i, |s.blocks|) then end.blocks == s.blocks && end.given == s.given
       else
         var f := NextClear(s.blocks, 32 * i, 32 * |s.blocks|);
         && 0 <= f < 32 * |s.blocks| && !Taken(s.blocks, f)
         && end.blocks == Marked(s.blocks, f) && end.given == s.given + [f]
  }

  lemma IdleStops(s: State, moves: seq<Move>, end: State, a: nat)
    requires Alone(moves, a) && Runs(s, moves, end) && a < |s.agents| && s.agents[a].Idle?
    ensures moves == []
  {
  }

  /** A search behind a full block is a search from the block after it. */
  lemma SkipsFull(s: State, a: nat, i: nat, end: State)
    requires a < |s.agents| && i < |s.blocks| && s.blocks[i] == Full() && PageEnd(s, a, i + 1, end)
    ensures PageEnd(s, a, i, end)
  {
    var n := 32 * |s.blocks|;
    if !FullBlocks(s.blocks, i + 1, |s.blocks|) {
      FullBlocksTaken(s.blocks, i, i + 1);
      NextClearFirst(s.blocks, 32 * (i + 1), n);
      NextClearIs(s.blocks, 32 * i, n, NextClear(s.blocks, 32 * (i + 1), n));
    }
  }

  /** The two steps at a block that is not full. */
  lemma TakesFirst(s: State, a: nat, i: nat, initial: set<nat>)
    requires a < |s.agents| && Inv(Searching(s, a, i), initial) && i < |s.blocks| && s.blocks[i] != Full()
    ensures var s0 := Searching(s, a, i);
      && Enabled(s0, a, Swap) && Safe(s0, a, Swap)
      && var s1 := Apply(s0, a, Swap);
         && a < |s1.agents| && s1.agents[a].Held? && s1.agents[a].call.Page?
         && Enabled(s1, a, TakePage) && Safe(s1, a, TakePage)
         && PageEnd(s, a, i, Apply(s1, a, TakePage))
  {
    var s0, bits := Searching(s, a, i), s.blocks[i];
    StepInv(s0, a, Swap, initial);
    assert s0.blocks[0] == Full();
    var s1 := Apply(s0, a, Swap);
    StepInv(s1, a, TakePage, initial);
    var end, k := Apply(s1, a, TakePage), LowestZero(bits);
    var f := 32 * i + k;
    assert f / 32 == i && f % 32 == k;
    FirstInBlock(s.blocks, i, k);
    NextClearIs(s.blocks, 32 * i, 32 * |s.blocks|, f);
    assert end.blocks == Marked(s.blocks, f);
    assert end.agents == s.agents[a := Idle];
  }

  /** Every run of the call alone ends as `lock_next_page` does. */
  lemma {:induction false} PageAloneEnds(s: State, a: nat, i: nat, moves: seq<Move>, end: State, initial: set<nat>)
    requires a < |s.agents| && Inv(Searching(s, a, i), initial) && Alone(moves, a)
    requires Runs(Searching(s, a, i), moves, end) && a < |end.agents| && end.agents[a].Idle?
    ensures PageEnd(s, a, i, end)
    decreases |moves|
  {
    var s0 := Searching(s, a, i);
    assert moves != [] && moves[0] == Move(a, Swap);
    StepInv(s0, a, Swap, initial);
    var s1, rest := Apply(s0, a, Swap), moves[1..];
    if i >= |s.blocks| {
      IdleStops(s1, rest, end, a);
    } else if s.blocks[i] == Full() {
      assert s1 == Searching(s, a, i + 1);
      PageAloneEnds(s, a, i + 1, rest, end, initial);
      SkipsFull(s, a, i, end);
    } else {
      TakesFirst(s, a, i, initial);
      assert rest[0] == Move(a, TakePage);
      IdleStops(Apply(s1, a, TakePage), rest[1..], end, a);
    }
  }

  /** And there is such a run: alone, the call does end. */
  lemma {:induction false} PageAloneRuns(s: State, a: nat, i: nat, initial: set<nat>)
      returns (moves: seq<Move>, end: State)
    requires a < |s.agents| && Inv(Searching(s, a, i), initial)
    ensures Alone(moves, a) && Runs(Searching(s, a, i), moves, end) && PageEnd(s, a, i, end)
    decreases if i < |s.blocks| then |s.blocks| - i else 0
  {
    var s0, swap := Searching(s, a, i), Move(a, Swap);
    StepInv(s0, a, Swap, initial);
    var s1 := Apply(s0, a, Swap);
    if i >= |s.blocks| {
      moves, end := [swap], s1;
      assert moves[1..] == [];
    } else if s.blocks[i] == Full() {
      assert s1 == Searching(s, a, i + 1);
      var rest;
      rest, end := PageAloneRuns(s, a, i + 1, initial);
      moves := [swap] + rest;
      SkipsFull(s, a, i, end);
    } else {
      TakesFirst(s, a, i, initial);
      moves, end := [swap, Move(a, TakePage)], Apply(s1, a, TakePage);
      assert moves[1..] == [Move(a, TakePage)] && moves[1..][1..] == [];
    }
  }

  /**
    An agent that allocates one page and runs alone does end, and always as `lock_next_page` run from
    the same bitmap: with the first free frame from its start block on, or with none and address 0.
   */
  lemma PageAlone(s: State, a: nat, start: nat, initial: set<nat>)
    requires Inv(s, initial) && Enabled(s, a, Begin(start, Page)) && Safe(s, a, Begin(start, Page))
    ensures exists moves, end :: AloneTo(Apply(s, a, Begin(start, Page)), moves, a, end)
    ensures forall moves, end :: AloneTo(Apply(s, a, Begin(start, Page)), moves, a, end) ==>
      var f := if end.given == s.given then 0 else NextClear(s.blocks, 32 * start, 32 * |s.blocks|);
      f >= 0 && FrameTaken(s.blocks, end.blocks, f, start) && end.given == if f == 0 then s.given else s.given + [f]
  {
    var s0 := Apply(s, a, Begin(start, Page));
    assert s0 == Searching(s, a, start);
    StepInv(s, a, Begin(start, Page), initial);
    var moves, end := PageAloneRuns(s, a, start, initial);
    assert AloneTo(s0, moves, a, end);
    forall moves, end | AloneTo(s0, moves, a, end)
      ensures var f := if end.given == s.given then 0 else NextClear(s.blocks, 32 * start, 32 * |s.blocks|);
        f >= 0 && FrameTaken(s.blocks, end.blocks, f, start) && end.given == if f == 0 then s.given else s.given + [f]
    {
      PageAloneEnds(s, a, start, moves, end, initial);
      var f := NextClear(s.blocks, 32 * start, 32 * |s.blocks|);
      if !FullBlocks(s.blocks, start, |s.blocks|) {
        FoundIff(s.blocks, end.blocks, f, start);
      }
    }
  }

  /** A run of agent `a` alone up to the end of its call. */
  ghost predicate AloneTo(s: State, moves: seq<Move>, a: nat, end: State) {
    Alone(moves, a) && Runs(s, moves, end) && a < |end.agents| && end.agents[a].Idle?
  }
}
