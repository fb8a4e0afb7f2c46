/**
  src/include/std/bitset.h used by one thread: a bitmap of 32-bit blocks, where a block is
  taken by swapping in all ones and given back by storing its new bits.
 */
module BitAllocation {
  import opened Arithmetic
  import opened BitOps

  /** Bit `b` of a bitmap is set. */
  predicate Taken(blocks: seq<Word>, b: nat)
    requires b < 32 * |blocks|
  {
    b % 32 in blocks[b / 32]
  }

  function UsedBits(blocks: seq<Word>): set<nat> {
    set b | 0 <= b < 32 * |blocks| && Taken(blocks, b)
  }

  /** All bits from `from` up to but not including `to` are set. */
  predicate AllTaken(blocks: seq<Word>, from: nat, to: nat)
    requires to <= 32 * |blocks|
  {
    forall b :: from <= b < to ==> Taken(blocks, b)
  }

  predicate FullBlocks(blocks: seq<Word>, from: nat, to: nat)
    requires to <= |blocks|
  {
    forall i :: from <= i < to ==> blocks[i] == Full()
  }

  function Marked(blocks: seq<Word>, b: nat): seq<Word>
    requires b < 32 * |blocks|
  {
    blocks[b / 32 := blocks[b / 32] + {b % 32}]
  }

  lemma MarkedTakes(blocks: seq<Word>, b: nat)
    requires b < 32 * |blocks|
    ensures forall c :: 0 <= c < 32 * |blocks| ==>
      (Taken(Marked(blocks, b), c) <==> Taken(blocks, c) || c == b)
  {
    forall c | 0 <= c < 32 * |blocks|
      ensures Taken(Marked(blocks, b), c) <==> Taken(blocks, c) || c == b
    {
      if c / 32 == b / 32 && c % 32 == b % 32 { assert c == b; }
    }
  }

  lemma FullBlocksTaken(blocks: seq<Word>, from: nat, to: nat)
    requires to <= |blocks| && FullBlocks(blocks, from, to)
    ensures AllTaken(blocks, 32 * from, 32 * to)
  {
    forall b | 32 * from <= b < 32 * to
      ensures Taken(blocks, b)
    {
      assert blocks[b / 32] == Full();
    }
  }

  // ---------------------------------------------------------------- lock_next_bit

  /** The first clear bit from `from` on, or -1 when there is none below `limit`. */
  function NextClear(blocks: seq<Word>, from: nat, limit: nat): int
    requires limit <= 32 * |blocks|
    decreases limit - from
  {
    if from >= limit then -1
    else if Taken(blocks, from) then NextClear(blocks, from + 1, limit)
    else from
  }

  lemma {:induction false} NextClearIs(blocks: seq<Word>, from: nat, limit: nat, b: nat)
    requires from <= b <= limit <= 32 * |blocks|
    requires AllTaken(blocks, from, b) && (b < limit ==> !Taken(blocks, b))
    ensures NextClear(blocks, from, limit) == if b < limit then b else -1
    decreases b - from
  {
    if from < b { NextClearIs(blocks, from + 1, limit, b); }
  }

  lemma {:induction false} NextClearFound(blocks: seq<Word>, from: nat, limit: nat)
    requires limit <= 32 * |blocks|
    ensures NextClear(blocks, from, limit) == -1 <==> AllTaken(blocks, from, limit)
    ensures NextClear(blocks, from, limit) != -1 ==>
      && from <= NextClear(blocks, from, limit) < limit
      && !Taken(blocks, NextClear(blocks, from, limit))
    decreases limit - from
  {
    if from < limit { NextClearFound(blocks, from + 1, limit); }
  }

  /**
    lock_next_bit gives up although a bit is clear exactly when every clear bit lies below the
    block it started at: its second lap never finds one.
   */
  lemma GivesUpWithRoom(blocks: seq<Word>, start: nat, limit: nat)
    requires limit <= 32 * |blocks|
    ensures (NextClear(blocks, 32 * start, limit) == -1 && !AllTaken(blocks, 0, limit))
       <==> (AllTaken(blocks, 32 * start, limit)
             && exists b :: 0 <= b < limit && b < 32 * start && !Taken(blocks, b))
  {
    NextClearFound(blocks, 32 * start, limit);
  }

  lemma GivesUpOnEmptyFirstBlock()
    ensures NextClear([{}, Full()], 32, 64) == -1 && !Taken([{}, Full()], 0)
  {
    var blocks: seq<Word> := [{}, Full()];
    forall b | 32 <= b < 64
      ensures Taken(blocks, b)
    {
      assert b / 32 == 1;
    }
    NextClearIs(blocks, 32, 64, 64);
  }

  // ---------------------------------------------------------------- ranges

  predicate InRange(i: nat, k: Bit, start: nat, size: nat) {
    start <= 32 * i + k < start + size
  }

  /** The part of the bits `start` to `start + size` that lies in block `i`. */
  function RangeIn(i: nat, start: nat, size: nat): Word {
    set k: Bit | 0 <= k < 32 && InRange(i, k, start, size)
  }

  lemma RangeOutside(i: nat, start: nat, size: nat)
    requires i < start / 32 || (start + size) / 32 < i
    ensures RangeIn(i, start, size) == {}
  {
    forall k: Bit | true
      ensures !InRange(i, k, start, size)
    {
    }
  }

  lemma HeadRange(start: nat, size: nat)
    requires start / 32 < (start + size) / 32
    ensures RangeIn(start / 32, start, size) == Span(start % 32, 32)
  {
    forall k: Bit | true
      ensures InRange(start / 32, k, start, size) <==> Between(start % 32, k, 32)
    {
    }
  }

  lemma TailRange(start: nat, size: nat)
    requires start / 32 < (start + size) / 32
    ensures RangeIn((start + size) / 32, start, size) == Span(0, (start + size) % 32)
  {
    var end := start + size;
    forall k: Bit | true
      ensures InRange(end / 32, k, start, size) <==> Between(0, k, end % 32)
    {
    }
  }

  lemma OneBlockRange(start: nat, size: nat)
    requires start / 32 == (start + size) / 32
    ensures RangeIn(start / 32, start, size) == Span(start % 32, 32) * Span(0, (start + size) % 32)
  {
    var from, to := start % 32, (start + size) % 32;
    forall k: Bit | true
      ensures InRange(start / 32, k, start, size) <==> Between(from, k, 32) && Between(0, k, to)
    {
    }
  }

  lemma BodyRange(i: nat, start: nat, size: nat)
    requires start / 32 < i < (start + size) / 32
    ensures RangeIn(i, start, size) == Full()
  {
    forall k: Bit | true
      ensures InRange(i, k, start, size)
    {
    }
  }

  ghost predicate RangeLocked(before: seq<Word>, after: seq<Word>, start: nat, size: nat, upTo: nat)
    requires |before| == |after|
  {
    forall i :: 0 <= i < |before| ==>
      after[i] == if i < upTo then before[i] + RangeIn(i, start, size) else before[i]
  }

  lemma RangeTaken(before: seq<Word>, after: seq<Word>, start: nat, size: nat)
    requires |before| == |after| && start + size <= 32 * |before|
    requires RangeLocked(before, after, start, size, |before|)
    ensures forall b :: 0 <= b < 32 * |before| ==>
      (Taken(after, b) <==> Taken(before, b) || start <= b < start + size)
  {
    forall b | 0 <= b < 32 * |before|
      ensures Taken(after, b) <==> Taken(before, b) || start <= b < start + size
    {
      assert after[b / 32] == before[b / 32] + RangeIn(b / 32, start, size);
      assert InRange(b / 32, b % 32, start, size) <==> start <= b < start + size;
    }
  }

  class BitAllocator {
    const blocks: array<Word>
    const maxBits: nat

    predicate Valid()
      reads this
    {
      32 * (blocks.Length - 1) < maxBits <= 32 * blocks.Length
    }

    constructor (bits: nat)
      requires bits > 0
      ensures Valid() && fresh(blocks) && maxBits == bits
      ensures blocks.Length == (bits + 31) / 32
      ensures forall b :: 0 <= b < 32 * blocks.Length ==> !Taken(blocks[..], b)
    {
      blocks := new Word[(bits + 31) / 32](i => {});
      maxBits := bits;
    }

    method LockBlock(i: nat) returns (bits: Word)
      requires i < blocks.Length
      modifies blocks
      ensures bits == old(blocks[i])
      ensures blocks[..] == old(blocks[..])[i := Full()]
    {
      bits := blocks[i];
      blocks[i] := Full();
    }

    /**
      Takes the first block from `start` on that is not full; when there is none the bits are
      all ones and nothing changed.
     */
    method LockNextBlock(start: nat) returns (index: nat, bits: Word)
      requires start < blocks.Length
      modifies blocks
      ensures bits == Full() ==>
        index == 0 && blocks[..] == old(blocks[..]) && FullBlocks(old(blocks[..]), start, blocks.Length)
      ensures bits != Full() ==>
        && start <= index < blocks.Length
        && bits == old(blocks[index])
        && blocks[..] == old(blocks[..])[index := Full()]
        && FullBlocks(old(blocks[..]), start, index)
    {
      bits := Full();
      ghost var was := blocks[..];
      for i := start to blocks.Length
        invariant bits == Full() && blocks[..] == was && FullBlocks(was, start, i)
      {
        bits := LockBlock(i);
        if bits != Full() {
          return i, bits;
        }
        assert was[i := Full()] == was;
      }
      index := 0;
    }

    method UnlockBlock(newBits: Word, i: nat)
      requires i < blocks.Length
      modifies blocks
      ensures blocks[..] == old(blocks[..])[i := newBits]
    {
      blocks[i] := newBits;
    }

    method LockNextBit(start: nat) returns (r: int)
      requires Valid() && start < blocks.Length
      modifies blocks
      ensures r == NextClear(old(blocks[..]), 32 * start, maxBits)
      ensures r >= 0 ==> r < maxBits && blocks[..] == Marked(old(blocks[..]), r)
      ensures r < 0 ==> blocks[..] == old(blocks[..])
    {
      hide NextClear;
      var n := blocks.Length;
      ghost var was := blocks[..];
      for i := start to start + n
        invariant blocks[..] == was
        invariant FullBlocks(was, start, if i <= n then i else n)
      {
        var block := i % n;
        if i < n { ResidueSmall(i, n); }
        var bits := blocks[block];
        if bits != Full() {
          var bit := LowestZero(bits);
          var final := bit + i * 32;
          ghost var seen := if i <= n then i else n;
          FullBlocksTaken(was, start, seen);
          if i < n { FirstInBlock(was, i, bit); }
          if final >= maxBits {
            assert AllTaken(was, 32 * start, maxBits);
            NextClearIs(was, 32 * start, maxBits, maxBits);
            return -1;
          }
          assert i < n && block == i;
          NextClearIs(was, 32 * start, maxBits, final);
          blocks[block] := bits + {bit};
          assert blocks[..] == Marked(was, final);
          return bit + block * 32;
        }
      }
      FullBlocksTaken(was, start, n);
      NextClearIs(was, 32 * start, maxBits, maxBits);
      r := -1;
    }

    /** Sets the bits of `mask` in a block; a block that is full is not written again. */
    method LockBitmask(i: nat, mask: Word) returns (r: Word)
      requires mask != {} ==> i < blocks.Length
      modifies blocks
      ensures mask == {} ==> r == {} && blocks[..] == old(blocks[..])
      ensures mask != {} ==>
        && blocks[..] == old(blocks[..])[i := old(blocks[i]) + mask]
        && r == if old(blocks[i]) == Full() then Full() else mask - old(blocks[i])
    {
      if mask == {} {
        return {};
      }
      var bits := LockBlock(i);
      if bits == Full() {
        assert bits + mask == bits;
        return Full();
      }
      r := (Full() - bits) * mask;
      blocks[i] := bits + mask;
      assert r == mask - bits;
    }

    /** Sets exactly the bits `start` to `start + size`, besides those set already. */
    method LockBitRange(start: nat, size: nat)
      requires start + size <= 32 * blocks.Length
      modifies blocks
      ensures RangeLocked(old(blocks[..]), blocks[..], start, size, blocks.Length)
      ensures forall b :: 0 <= b < 32 * blocks.Length ==>
        (Taken(blocks[..], b) <==> Taken(old(blocks[..]), b) || start <= b < start + size)
    {
      ghost var was := blocks[..];
      var startIndex, endIndex, headMask, tailMask := RangeMasks(start, size);
      RangeBlocks(start, size);
      hide RangeIn, Full;

      if startIndex == endIndex {
        var _ := LockBitmask(startIndex, headMask * tailMask);
      } else {
        var _ := LockBitmask(startIndex, headMask);
        for i := startIndex + 1 to endIndex
          invariant RangeLocked(was, blocks[..], start, size, i)
        {
          var _ := LockBitmask(i, Full());
        }
        var _ := LockBitmask(endIndex, tailMask);
      }
      RangeTaken(was, blocks[..], start, size);
    }
  }

  /** The first and the last block of a range of bits, and the masks for them. */
  method RangeMasks(start: nat, size: nat)
      returns (startIndex: nat, endIndex: nat, headMask: Word, tailMask: Word)
    ensures startIndex == start / 32 <= endIndex == (start + size) / 32
    ensures (start + size) % 32 == 0 ==> tailMask == {}
    ensures startIndex == endIndex ==> headMask * tailMask == RangeIn(startIndex, start, size)
    ensures startIndex < endIndex ==>
      && headMask == RangeIn(startIndex, start, size)
      && tailMask == RangeIn(endIndex, start, size)
  {
    startIndex := start / 32;
    endIndex := (start + size) / 32;

    var headBits := 32 - start % 32;
    headMask := Bits(HighOnes(headBits));
    var tailBits := (size + 32 - headBits) % 32;
    tailMask := Bits(LowOnes(tailBits));

    HighOnesBits(headBits);
    LowOnesBits(tailBits);
    assert Span(0, 0) == {};
    hide HighOnes, LowOnes, Bits, RangeIn, Span;
    TailBits(start, size);
    if startIndex == endIndex {
      OneBlockRange(start, size);
    } else {
      HeadRange(start, size);
      TailRange(start, size);
    }
  }

  lemma TailBits(start: nat, size: nat)
    ensures (size + 32 - (32 - start % 32)) % 32 == (start + size) % 32
    ensures start / 32 <= (start + size) / 32
  {
  }

  lemma RangeBlocks(start: nat, size: nat)
    ensures forall i :: start / 32 < i < (start + size) / 32 ==> RangeIn(i, start, size) == Full()
    ensures forall i: nat :: i < start / 32 || (start + size) / 32 < i ==> RangeIn(i, start, size) == {}
  {
    forall i: nat | start / 32 < i < (start + size) / 32
      ensures RangeIn(i, start, size) == Full()
    {
      BodyRange(i, start, size);
    }
    forall i: nat | i < start / 32 || (start + size) / 32 < i
      ensures RangeIn(i, start, size) == {}
    {
      RangeOutside(i, start, size);
    }
  }

  lemma FirstInBlock(blocks: seq<Word>, i: nat, bit: Bit)
    requires i < |blocks|
    requires bit !in blocks[i] && forall j: Bit :: j < bit ==> j in blocks[i]
    ensures AllTaken(blocks, 32 * i, 32 * i + bit) && !Taken(blocks, 32 * i + bit)
  {
    forall b | 32 * i <= b < 32 * i + bit
      ensures Taken(blocks, b)
    {
      assert b / 32 == i && b % 32 == b - 32 * i;
    }
  }
}
