/** The frames handed out, as a list beside the bitmap. */
module FrameLists {
  import opened BitOps
  import opened BitAllocation

  /** The frames of the low 4 MB, reserved at start-up. */
  const LOW_FRAMES := 1024

  predicate NoneTwice(given: seq<nat>) {
    forall i, j :: 0 <= i < j < |given| ==> given[i] != given[j]
  }

  function Elements(given: seq<nat>): set<nat> {
    set f | f in given
  }

  lemma {:induction false} CountGiven(given: seq<nat>)
    requires NoneTwice(given)
    ensures |Elements(given)| == |given|
  {
    if given != [] {
      var n := |given| - 1;
      CountGiven(given[..n]);
      assert given == given[..n] + [given[n]];
      assert Elements(given) == Elements(given[..n]) + {given[n]};
      assert given[n] !in given[..n];
    }
  }

  /** The list has each frame once, all of them were free before, and they are all that is used since. */
  predicate Given(before: seq<Word>, after: seq<Word>, given: seq<nat>) {
    && |before| == |after|
    && NoneTwice(given)
    && (forall f :: f in given ==> f < 32 * |before| && !Taken(before, f))
    && (forall f :: 0 <= f < 32 * |before| ==> (Taken(after, f) <==> Taken(before, f) || f in given))
  }

  lemma GiveMore(before: seq<Word>, after: seq<Word>, given: seq<nat>, f: nat)
    requires Given(before, after, given) && f < 32 * |after| && !Taken(after, f)
    ensures Given(before, Marked(after, f), given + [f])
  {
    MarkedTakes(after, f);
  }

  /** The order of the list is of no account. */
  lemma GivenSwapped(before: seq<Word>, after: seq<Word>, a: seq<nat>, f: nat, b: seq<nat>)
    requires Given(before, after, a + b + [f])
    ensures Given(before, after, a + [f] + b)
  {
    var x, y := a + b + [f], a + [f] + b;
    forall i, j | 0 <= i < j < |y|
      ensures y[i] != y[j]
    {
      var i' := if i < |a| then i else if i == |a| then |x| - 1 else i - 1;
      var j' := if j < |a| then j else if j == |a| then |x| - 1 else j - 1;
      assert x[i'] == y[i] && x[j'] == y[j] && i' != j';
    }
    assert forall g :: g in x <==> g in y;
  }

  /** Conservation, and how many free frames from block `start` on are left at least. */
  lemma GivenCount(before: seq<Word>, after: seq<Word>, given: seq<nat>, start: nat)
    requires Given(before, after, given)
    ensures |UsedBits(after)| == |UsedBits(before)| + |given|
    ensures |FreeFrom(before, start)| <= |FreeFrom(after, start)| + |given|
  {
    CountGiven(given);
    assert Elements(given) !! UsedBits(before);
    assert UsedBits(after) == UsedBits(before) + Elements(given);
    assert FreeFrom(before, start) <= FreeFrom(after, start) + Elements(given);
    Subset(FreeFrom(before, start), FreeFrom(after, start) + Elements(given));
  }

  /** What is full stays full. */
  lemma GivenStaysFull(before: seq<Word>, after: seq<Word>, given: seq<nat>, i: nat)
    requires Given(before, after, given) && i < |before| && before[i] == Full()
    ensures after[i] == Full()
  {
    forall k: Bit | true
      ensures k in after[i]
    {
      assert (32 * i + k) / 32 == i && (32 * i + k) % 32 == k;
      assert Taken(before, 32 * i + k);
    }
  }

  /** The free frames that a search from block `start` on passes. */
  function FreeFrom(blocks: seq<Word>, start: nat): set<nat> {
    set f | 32 * start <= f < 32 * |blocks| && !Taken(blocks, f)
  }

  lemma {:induction false} Subset(a: set<nat>, b: set<nat>)
    requires a <= b
    ensures |a| <= |b|
  {
    if a != {} {
      var x :| x in a;
      Subset(a - {x}, b - {x});
    }
  }
}
