/**
  The mask arithmetic of src/include/std/bitops.h: 32-bit signed integers, and the bit
  positions that are one in them.
 */
module BitOps {

  type Bit = k: nat | k < 32

  /** A 32-bit word, as the set of the positions of its one bits. */
  type Word = set<Bit>

  predicate Between(from: nat, k: Bit, to: nat) {
    from <= k < to
  }

  /** The positions from `from` up to but not including `to`. */
  function Span(from: nat, to: nat): Word {
    set k: Bit | 0 <= k < 32 && Between(from, k, to)
  }

  /** All ones, the value -1. */
  function Full(): Word {
    Span(0, 32)
  }

  function Pow2(n: nat): (p: nat)
    ensures p >= 1
  {
    if n == 0 then 1 else 2 * Pow2(n - 1)
  }

  /** The word an integer is stored as, in two's complement. */
  function Bits(x: int): Word {
    set k: Bit | 0 <= k < 32 && x / Pow2(k) % 2 == 1
  }

  /** What the compiler keeps of a result: 32 bits, signed. */
  function Truncate(x: int): int {
    (x + 0x8000_0000) % 0x1_0000_0000 - 0x8000_0000
  }

  function ShiftLeft(x: int, n: nat): int {
    Truncate(x * Pow2(n))
  }

  /** A one shifted left in two halves, so that no shift is by 32. */
  function ShiftedOne(n: nat): int {
    var half := n / 2;
    ShiftLeft(ShiftLeft(1, half), n - half)
  }

  function HighOnes(n: nat): int
    requires n <= 32
  {
    Truncate(0 - ShiftedOne(32 - n))
  }

  function LowOnes(n: nat): int
    requires n <= 32
  {
    Truncate(ShiftedOne(n) - 1)
  }

  lemma {:induction false} PowAdds(a: nat, b: nat)
    ensures Pow2(a + b) == Pow2(a) * Pow2(b)
  {
    if a > 0 { PowAdds(a - 1, b); }
  }

  lemma {:induction false} PowGrows(a: nat, b: nat)
    requires a <= b
    ensures Pow2(a) <= Pow2(b)
  {
    if a < b { PowGrows(a, b - 1); }
  }

  lemma PowFacts()
    ensures Pow2(16) == 0x1_0000 && Pow2(32) == 0x1_0000_0000
  {
    assert Pow2(4) == 16;
    PowAdds(4, 4);
    PowAdds(8, 8);
    PowAdds(16, 16);
  }

  lemma PowSplit(n: nat, k: nat)
    requires k < n
    ensures Pow2(n) == Pow2(k) * (2 * Pow2(n - k - 1))
  {
    PowAdds(k, n - k);
  }

  lemma Product(d: nat, e: int)
    requires d > 0
    ensures e >= 1 ==> d * e >= d
    ensures e <= -1 ==> d * e <= 0 - d
  {
    if e >= 1 { assert d * e == d + d * (e - 1); }
    if e <= -1 { assert d * e == d * (e + 1) - d; }
  }

  lemma Quotient(x: int, d: nat, q: int)
    requires d > 0 && d * q <= x < d * q + d
    ensures x / d == q
  {
    var e := x / d - q;
    assert x == d * (x / d) + x % d == d * q + d * e + x % d;
    Product(d, e);
  }

  lemma Parity(x: int, d: nat, e: int)
    requires d > 0
    ensures (x + d * (2 * e)) / d % 2 == x / d % 2
  {
    var y := x / d;
    assert x == d * y + x % d;
    assert d * (y + 2 * e) == d * y + d * (2 * e);
    Quotient(x + d * (2 * e), d, y + 2 * e);
  }

  lemma Regroup(d: int, e: int, q: int)
    ensures d * (2 * (e * q)) == (d * (2 * e)) * q
  {
  }

  /** Numbers that differ by a multiple of 2^32 are the same word. */
  lemma SameWord(x: int, q: int)
    ensures Bits(x + 0x1_0000_0000 * q) == Bits(x)
  {
    PowFacts();
    hide Pow2;
    forall k: Bit | true
      ensures k in Bits(x + 0x1_0000_0000 * q) <==> k in Bits(x)
    {
      var d, e := Pow2(k), Pow2(32 - k - 1);
      PowSplit(32, k);
      Regroup(d, e, q);
      Parity(x, d, e * q);
    }
  }

  lemma Truncated(x: int)
    ensures exists q :: Truncate(x) == x + 0x1_0000_0000 * q
  {
    var q := -((x + 0x8000_0000) / 0x1_0000_0000);
    assert Truncate(x) == x + 0x1_0000_0000 * q;
  }

  lemma TruncateBits(x: int)
    ensures Bits(Truncate(x)) == Bits(x)
  {
    Truncated(x);
    var q :| Truncate(x) == x + 0x1_0000_0000 * q;
    SameWord(x, q);
  }

  lemma ShiftedPower(x: int, n: nat)
    ensures exists q :: ShiftLeft(x, n) == x * Pow2(n) + 0x1_0000_0000 * q
  {
    var product := x * Pow2(n);
    Truncated(product);
  }

  lemma SmallPower(n: nat)
    requires n <= 16
    ensures ShiftLeft(1, n) == Pow2(n)
  {
    PowFacts();
    PowGrows(n, 16);
    hide Pow2;
    var p := Pow2(n);
    assert Truncate(p) == p;
  }

  /** The result is 2^n, modulo 2^32 when n is 32. */
  lemma ShiftedOneIs(n: nat) returns (q: int)
    requires n <= 32
    ensures ShiftedOne(n) == Pow2(n) + 0x1_0000_0000 * q
  {
    hide Pow2, ShiftLeft;
    SmallPower(n / 2);
    ShiftedPower(Pow2(n / 2), n - n / 2);
    PowAdds(n / 2, n - n / 2);
    q :| ShiftedOne(n) == Pow2(n) + 0x1_0000_0000 * q;
  }

  lemma EvenMinusOne(d: nat, e: nat)
    requires d > 0
    ensures (d * (2 * e) - 1) / d % 2 == 1
  {
    var q := 2 * e - 1;
    assert d * (2 * e) == d * q + d;
    Quotient(d * (2 * e) - 1, d, q);
  }

  lemma LowBit(n: nat, k: nat)
    ensures (Pow2(n) - 1) / Pow2(k) % 2 == 1 <==> k < n
  {
    hide Pow2;
    if k < n {
      PowSplit(n, k);
      EvenMinusOne(Pow2(k), Pow2(n - k - 1));
    } else {
      PowGrows(n, k);
      Quotient(Pow2(n) - 1, Pow2(k), 0);
    }
  }

  lemma MinusEven(d: nat, e: nat)
    requires d > 0
    ensures (0 - d * (2 * e)) / d % 2 == 0
  {
    Regroup(d, e, -1);
    Parity(0, d, 0 - e);
  }

  lemma MinusSmall(p: nat, d: nat)
    requires 0 < p <= d
    ensures (0 - p) / d % 2 == 1
  {
    Quotient(0 - p, d, -1);
  }

  lemma HighBit(m: nat, k: nat)
    ensures (0 - Pow2(m)) / Pow2(k) % 2 == 1 <==> k >= m
  {
    hide Pow2;
    if k < m {
      PowSplit(m, k);
      MinusEven(Pow2(k), Pow2(m - k - 1));
    } else {
      PowGrows(m, k);
      MinusSmall(Pow2(m), Pow2(k));
    }
  }

  lemma LowWord(n: nat)
    ensures Bits(Pow2(n) - 1) == Span(0, n)
  {
    hide Pow2;
    var x := Pow2(n) - 1;
    forall k: Bit | true
      ensures k in Bits(x) <==> k < n
    {
      LowBit(n, k);
    }
  }

  lemma HighWord(m: nat)
    ensures Bits(0 - Pow2(m)) == Span(m, 32)
  {
    hide Pow2;
    var x: int := 0 - Pow2(m);
    forall k: Bit | true
      ensures k in Bits(x) <==> k >= m
    {
      HighBit(m, k);
    }
  }

  /** low_ones(n) has exactly the n lowest bits set, for every n from 0 to 32. */
  lemma LowOnesBits(n: nat)
    requires n <= 32
    ensures Bits(LowOnes(n)) == Span(0, n)
  {
    hide Pow2, Truncate, ShiftedOne, Bits, Span;
    var q := ShiftedOneIs(n);
    TruncateBits(ShiftedOne(n) - 1);
    SameWord(Pow2(n) - 1, q);
    LowWord(n);
  }

  /** high_ones(n) has exactly the n highest bits set, for every n from 0 to 32. */
  lemma HighOnesBits(n: nat)
    requires n <= 32
    ensures Bits(HighOnes(n)) == Span(32 - n, 32)
  {
    hide Pow2, Truncate, ShiftedOne, Bits, Span;
    var q := ShiftedOneIs(32 - n);
    TruncateBits(0 - ShiftedOne(32 - n));
    SameWord(0 - Pow2(32 - n), 0 - q);
    HighWord(32 - n);
  }

  lemma NotFull(w: Word)
    ensures w == Full() || exists j: Bit :: j !in w
  {
    if forall j: Bit :: j in w { assert w == Full(); }
  }

  /** bitscan_forward of the complement: the lowest zero bit of a word that is not all ones. */
  function LowestZero(w: Word): (k: Bit)
    requires w != Full()
    ensures k !in w && forall j: Bit :: j < k ==> j in w
  {
    NotFull(w);
    ScanFrom(w, 0)
  }

  function ScanFrom(w: Word, from: nat): (k: Bit)
    requires from < 32
    requires exists j: Bit :: j !in w
    requires forall j: Bit :: j < from ==> j in w
    ensures k !in w && forall j: Bit :: j < k ==> j in w
    decreases 32 - from
  {
    if from !in w then from else ScanFrom(w, from + 1)
  }
}
