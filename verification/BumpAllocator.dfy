/**
  atomic_add_limit of src/include/std/atomic.h, the allocator of address ranges behind
  static_alloc_pages and next_virtual_pages, under any interleaving of its callers.
 */
module BumpAllocation {

  const MAX_ADD_TRIES := 10

  datatype Range = Range(start: nat, end: nat)

  /** Outside, with what the last call returned; or in the loop: `tries` so far, and the value last read. */
  datatype Pc = Idle(returned: nat) | Trying(tries: nat, diff: nat, seen: nat)

  /** `given` is history: the ranges returned, in the order of their compare-and-swaps. */
  datatype State = State(val: nat, limit: nat, threads: seq<Pc>, given: seq<Range>)

  datatype Step = Begin(diff: nat) | Try

  predicate Enabled(s: State, t: nat, step: Step) {
    t < |s.threads| && (step.Begin? <==> s.threads[t].Idle?)
  }

  function Next(s: State, t: nat, step: Step): State
    requires Enabled(s, t, step)
  {
    match step
    case Begin(diff) => s.(threads := s.threads[t := Trying(0, diff, s.val)])
    case Try =>
      var p := s.threads[t];
      if p.diff > s.limit - p.seen then s.(threads := s.threads[t := Idle(s.limit)])
      else if s.val == p.seen then
        s.(val := p.seen + p.diff, threads := s.threads[t := Idle(p.seen)],
           given := s.given + [Range(p.seen, p.seen + p.diff)])
      else
        var again := p.tries + 1 < MAX_ADD_TRIES;
        s.(threads := s.threads[t := if again then Trying(p.tries + 1, p.diff, s.val) else Idle(s.limit)])
  }

  /** The ranges follow one another without gaps from `start` to `end`. */
  predicate Tiles(given: seq<Range>, start: nat, end: nat) {
    if given == [] then start == end
    else
      var last := given[|given| - 1];
      last.start <= last.end == end && Tiles(given[..|given| - 1], start, last.start)
  }

  predicate SeenOk(s: State, start: nat, t: nat)
    requires t < |s.threads|
  {
    s.threads[t].Trying? ==> start <= s.threads[t].seen <= s.val
  }

  predicate Inv(s: State, start: nat) {
    && start <= s.val <= s.limit
    && Tiles(s.given, start, s.val)
    && forall t :: 0 <= t < |s.threads| ==> SeenOk(s, start, t)
  }

  /** The word only grows, so a compare-and-swap succeeds only if nobody was given a range in between. */
  lemma StepInv(s: State, t: nat, step: Step, start: nat)
    requires Inv(s, start) && Enabled(s, t, step)
    ensures Inv(Next(s, t, step), start)
    ensures s.val <= Next(s, t, step).val
  {
    var s' := Next(s, t, step);
    assert SeenOk(s, start, t);
    if |s'.given| > |s.given| {
      assert s'.given[..|s'.given| - 1] == s.given;
    }
    forall u | 0 <= u < |s'.threads|
      ensures SeenOk(s', start, u)
    {
      assert SeenOk(s, start, u);
    }
  }

  datatype Move = Move(thread: nat, step: Step)

  predicate Runs(s: State, moves: seq<Move>, end: State)
    decreases |moves|
  {
    if moves == [] then end == s
    else Enabled(s, moves[0].thread, moves[0].step) && Runs(Next(s, moves[0].thread, moves[0].step), moves[1..], end)
  }

  lemma {:induction false} RunInv(s: State, moves: seq<Move>, end: State, start: nat)
    requires Inv(s, start) && Runs(s, moves, end)
    ensures Inv(end, start) && end.limit == s.limit
    decreases |moves|
  {
    if moves != [] {
      StepInv(s, moves[0].thread, moves[0].step, start);
      RunInv(Next(s, moves[0].thread, moves[0].step), moves[1..], end, start);
    }
  }

  lemma {:induction false} TilesOrdered(given: seq<Range>, start: nat, end: nat, i: nat, j: nat)
    requires Tiles(given, start, end) && i <= j < |given|
    ensures start <= given[i].start <= given[i].end <= end
    ensures i < j ==> given[i].end <= given[j].start
    decreases |given|
  {
    var n := |given| - 1;
    if i < n {
      assert given[..n][i] == given[i];
      if j < n {
        TilesOrdered(given[..n], start, given[n].start, i, j);
      } else {
        TilesOrdered(given[..n], start, given[n].start, i, i);
      }
    } else {
      TilesFrom(given[..n], start, given[n].start);
    }
  }

  lemma {:induction false} TilesFrom(given: seq<Range>, start: nat, end: nat)
    requires Tiles(given, start, end)
    ensures start <= end
    decreases |given|
  {
    if given != [] { TilesFrom(given[..|given| - 1], start, given[|given| - 1].start); }
  }

  /**
    Over every run the ranges given out are disjoint, and together they are exactly the addresses
    from the first value of the word to its last, never past the limit.
   */
  lemma RangesDisjoint(s: State, moves: seq<Move>, end: State, i: nat, j: nat)
    requires s.val <= s.limit && s.given == [] && (forall t :: 0 <= t < |s.threads| ==> s.threads[t].Idle?)
    requires Runs(s, moves, end) && i < j < |end.given|
    ensures Tiles(end.given, s.val, end.val) && end.val <= s.limit
    ensures end.given[i].end <= end.given[j].start
    ensures s.val <= end.given[i].start && end.given[j].end <= end.val
  {
    RunInv(s, moves, end, s.val);
    TilesOrdered(end.given, s.val, end.val, i, j);
    TilesOrdered(end.given, s.val, end.val, j, j);
  }

  // ---------------------------------------------------------------- one call among others

  /** Thread `t` begins no call: all it does belongs to the call it is in. */
  predicate OneCall(moves: seq<Move>, t: nat) {
    forall i :: 0 <= i < |moves| && moves[i].thread == t ==> moves[i].step == Try
  }

  /** The ranges given out by the steps of thread `t`. */
  function GivenTo(s: State, moves: seq<Move>, t: nat): seq<Range>
    decreases |moves|
  {
    if moves == [] || !Enabled(s, moves[0].thread, moves[0].step) then []
    else
      var s' := Next(s, moves[0].thread, moves[0].step);
      (if moves[0].thread == t && |s'.given| > |s.given| then [s'.given[|s'.given| - 1]] else [])
      + GivenTo(s', moves[1..], t)
  }

  /** How often threads other than `t` change the word. */
  function OthersAdd(s: State, moves: seq<Move>, t: nat): nat
    decreases |moves|
  {
    if moves == [] || !Enabled(s, moves[0].thread, moves[0].step) then 0
    else
      var s' := Next(s, moves[0].thread, moves[0].step);
      (if moves[0].thread != t && s'.val != s.val then 1 else 0) + OthersAdd(s', moves[1..], t)
  }

  /** The steps that read the word: the begin of a call, and each lost compare-and-swap. */
  predicate Reads(s: State, step: Step, t: nat)
    requires Enabled(s, t, step)
  {
    var p := s.threads[t];
    step.Begin? || (p.diff <= s.limit - p.seen && s.val != p.seen)
  }

  /** At one of its steps `t` reads a value of the word with less than `diff` left to the limit. */
  predicate SeesTooLittle(s: State, moves: seq<Move>, t: nat, diff: nat)
    decreases |moves|
  {
    && moves != [] && Enabled(s, moves[0].thread, moves[0].step)
    && (|| (moves[0].thread == t && Reads(s, moves[0].step, t) && diff > s.limit - s.val)
        || SeesTooLittle(Next(s, moves[0].thread, moves[0].step), moves[1..], t, diff))
  }

  /** How often thread `t` moves. */
  function Tries(moves: seq<Move>, t: nat): nat
    decreases |moves|
  {
    if moves == [] then 0 else (if moves[0].thread == t then 1 else 0) + Tries(moves[1..], t)
  }

  /** The changes by others that must still come before the call can fail, if it never sees too little left. */
  function RacesLeft(s: State, pc: Pc): nat {
    if pc.Idle? || pc.tries >= MAX_ADD_TRIES then 0
    else if pc.seen == s.val then MAX_ADD_TRIES - pc.tries
    else MAX_ADD_TRIES - pc.tries - 1
  }

  lemma {:induction false} StaysIdle(s: State, moves: seq<Move>, end: State, t: nat)
    requires Runs(s, moves, end) && OneCall(moves, t) && t < |s.threads| && s.threads[t].Idle?
    ensures t < |end.threads| && end.threads[t] == s.threads[t]
    ensures GivenTo(s, moves, t) == [] && Tries(moves, t) == 0
    decreases |moves|
  {
    if moves != [] {
      StaysIdle(Next(s, moves[0].thread, moves[0].step), moves[1..], end, t);
    }
  }

  /** The first move of a run, and what it adds to the account of `t`. */
  lemma FirstMove(s: State, moves: seq<Move>, end: State, t: nat, diff: nat)
    requires moves != [] && Runs(s, moves, end) && OneCall(moves, t)
    ensures var u, step, rest := moves[0].thread, moves[0].step, moves[1..];
      && Enabled(s, u, step) && Runs(Next(s, u, step), rest, end) && OneCall(rest, t) && (u == t ==> step == Try)
      && (u != t ==> GivenTo(s, moves, t) == GivenTo(Next(s, u, step), rest, t))
      && (u == t && |Next(s, u, step).given| == |s.given| ==>
        GivenTo(s, moves, t) == GivenTo(Next(s, u, step), rest, t))
      && (SeesTooLittle(Next(s, u, step), rest, t, diff) ==> SeesTooLittle(s, moves, t, diff))
      && (u == t && Reads(s, step, t) && diff > s.limit - s.val ==> SeesTooLittle(s, moves, t, diff))
      && OthersAdd(s, moves, t) ==
         (if u != t && Next(s, u, step).val != s.val then 1 else 0) + OthersAdd(Next(s, u, step), rest, t)
      && Tries(moves, t) == (if u == t then 1 else 0) + Tries(rest, t)
  {
  }

  /** A try of the call itself: it is given its range, fails, or has lost a race and goes on. */
  lemma OwnTry(s: State, t: nat, start: nat)
    requires Inv(s, start) && Enabled(s, t, Try) && s.threads[t].tries < MAX_ADD_TRIES
    ensures var s', p := Next(s, t, Try), s.threads[t];
      && s'.limit == s.limit && t < |s'.threads|
      && (|| (&& s'.threads[t] == Idle(p.seen) && p.seen + p.diff <= s.limit
              && s'.given == s.given + [Range(p.seen, p.seen + p.diff)])
          || (&& s'.threads[t] == Idle(s.limit) && |s'.given| == |s.given|
              && (p.diff > s.limit - p.seen || RacesLeft(s, p) == 0))
          || (&& s'.threads[t] == Trying(p.tries + 1, p.diff, s.val) && |s'.given| == |s.given|
              && p.tries + 1 < MAX_ADD_TRIES && Reads(s, Try, t)
              && RacesLeft(s', s'.threads[t]) >= RacesLeft(s, p)))
  {
    assert SeenOk(s, start, t);
  }

  lemma OtherTry(s: State, u: nat, step: Step, t: nat)
    requires Enabled(s, u, step) && u != t && t < |s.threads| && s.threads[t].Trying?
    ensures var s', p := Next(s, u, step), s.threads[t];
      && s'.limit == s.limit && t < |s'.threads| && s'.threads[t] == p
      && RacesLeft(s, p) <= RacesLeft(s', p) + if s'.val != s.val then 1 else 0
  {
  }

  /** What a call that is in the loop at `s`, as `p`, has come to by the end of the run. */
  predicate Outcome(s: State, moves: seq<Move>, t: nat, p: Pc, r: nat)
    requires p.Trying?
  {
    || (GivenTo(s, moves, t) == [Range(r, r + p.diff)] && r + p.diff <= s.limit)
    || (&& GivenTo(s, moves, t) == [] && r == s.limit
        && (|| p.diff > s.limit - p.seen || SeesTooLittle(s, moves, t, p.diff)
            || OthersAdd(s, moves, t) >= RacesLeft(s, p)))
  }

  lemma {:induction false} CallOutcome(s: State, moves: seq<Move>, end: State, t: nat, start: nat)
    requires Inv(s, start) && Runs(s, moves, end) && OneCall(moves, t)
    requires t < |s.threads| && s.threads[t].Trying? && s.threads[t].tries < MAX_ADD_TRIES
    ensures Tries(moves, t) <= MAX_ADD_TRIES - s.threads[t].tries
    ensures t < |end.threads|
    ensures end.threads[t].Idle? ==> Outcome(s, moves, t, s.threads[t], end.threads[t].returned)
    decreases |moves|
  {
    if moves != [] {
      var u, step, rest := moves[0].thread, moves[0].step, moves[1..];
      FirstMove(s, moves, end, t, s.threads[t].diff);
      var s' := Next(s, u, step);
      StepInv(s, u, step, start);
      if u != t {
        OtherTry(s, u, step, t);
        hide Next, Inv, SeesTooLittle, OthersAdd, GivenTo, RacesLeft, Reads, Runs;
        CallOutcome(s', rest, end, t, start);
      } else {
        OwnTry(s, t, start);
        if s'.threads[t].Trying? {
          hide Next, Inv, SeesTooLittle, OthersAdd, GivenTo, RacesLeft, Reads, Runs;
          CallOutcome(s', rest, end, t, start);
        } else {
          StaysIdle(s', rest, end, t);
          GivenFirst(s, moves, t);
        }
      }
    }
  }

  lemma GivenFirst(s: State, moves: seq<Move>, t: nat)
    requires moves != [] && moves[0].thread == t && Enabled(s, t, moves[0].step)
    requires GivenTo(Next(s, t, moves[0].step), moves[1..], t) == []
    ensures var given := Next(s, t, moves[0].step).given;
      GivenTo(s, moves, t) == if |given| > |s.given| then [given[|given| - 1]] else []
  {
  }

  /**
    Whatever the other callers do, a call either is given one range, of exactly the length asked for,
    and returns its start, or is given none and returns the limit.  Then it read a value with too
    little left, or others changed the word ten times.
   */
  lemma AddReturns(s: State, t: nat, diff: nat, moves: seq<Move>, end: State, start: nat)
    requires Inv(s, start) && OneCall(moves, t) && Runs(s, [Move(t, Begin(diff))] + moves, end)
    requires t < |end.threads| && end.threads[t].Idle?
    ensures var all, r := [Move(t, Begin(diff))] + moves, end.threads[t].returned;
      || (GivenTo(s, all, t) == [Range(r, r + diff)] && r + diff <= s.limit)
      || (&& GivenTo(s, all, t) == [] && r == s.limit
          && (SeesTooLittle(s, all, t, diff) || OthersAdd(s, all, t) >= MAX_ADD_TRIES))
  {
    var all := [Move(t, Begin(diff))] + moves;
    assert all[1..] == moves;
    StepInv(s, t, Begin(diff), start);
    CallOutcome(Next(s, t, Begin(diff)), moves, end, t, start);
  }

  /** However the others interfere, a call tries at most ten times. */
  lemma AddBounded(s: State, t: nat, diff: nat, moves: seq<Move>, end: State, start: nat)
    requires Inv(s, start) && OneCall(moves, t) && Runs(s, [Move(t, Begin(diff))] + moves, end)
    ensures Tries(moves, t) <= MAX_ADD_TRIES
  {
    var all := [Move(t, Begin(diff))] + moves;
    assert all[1..] == moves;
    StepInv(s, t, Begin(diff), start);
    CallOutcome(Next(s, t, Begin(diff)), moves, end, t, start);
  }

  /** Alone, a call succeeds at its first try exactly when what it asks for is left. */
  lemma AddAlone(s: State, t: nat, diff: nat)
    requires s.val <= s.limit && Enabled(s, t, Begin(diff))
    ensures Enabled(Next(s, t, Begin(diff)), t, Try)
    ensures var end := Next(Next(s, t, Begin(diff)), t, Try);
      if diff <= s.limit - s.val then
        end == s.(val := s.val + diff, given := s.given + [Range(s.val, s.val + diff)],
                  threads := s.threads[t := Idle(s.val)])
      else end == s.(threads := s.threads[t := Idle(s.limit)])
  {
    assert s.threads[t := Trying(0, diff, s.val)][t := Idle(s.val)] == s.threads[t := Idle(s.val)];
    assert s.threads[t := Trying(0, diff, s.val)][t := Idle(s.limit)] == s.threads[t := Idle(s.limit)];
  }

  // ---------------------------------------------------------------- all calls together

  /** What the threads asked for when they began the calls they are in. */
  predicate Asked(s: State, asked: seq<nat>) {
    |asked| == |s.threads| && forall t :: 0 <= t < |asked| && s.threads[t].Trying? ==> s.threads[t].diff == asked[t]
  }

  /** The sum of what was asked for by the calls that were given a range. */
  function AskedAndGiven(s: State, moves: seq<Move>, asked: seq<nat>): nat
    requires |asked| == |s.threads|
    decreases |moves|
  {
    if moves == [] || !Enabled(s, moves[0].thread, moves[0].step) then 0
    else
      var t, step := moves[0].thread, moves[0].step;
      var s' := Next(s, t, step);
      (if |s'.given| > |s.given| then asked[t] else 0)
      + AskedAndGiven(s', moves[1..], if step.Begin? then asked[t := step.diff] else asked)
  }

  /** Over every run the word grows by exactly what the successful calls asked for. */
  lemma {:induction false} GrowsByAsked(s: State, moves: seq<Move>, end: State, asked: seq<nat>)
    requires Runs(s, moves, end) && Asked(s, asked)
    ensures end.val - s.val == AskedAndGiven(s, moves, asked)
    decreases |moves|
  {
    if moves != [] {
      var t, step := moves[0].thread, moves[0].step;
      GrowsByAsked(Next(s, t, step), moves[1..], end, if step.Begin? then asked[t := step.diff] else asked);
    }
  }
}
