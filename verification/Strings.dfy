/** The word-at-a-time loops of src/system/string.cpp. */
module Strings {

  type Byte = b: int | 0 <= b < 256

  /** Memory from a pointer on. */
  type Text = nat -> Byte

  function WordAt(a: Text, i: nat): nat {
    a(4 * i) + 0x100 * (a(4 * i + 1) + 0x100 * (a(4 * i + 2) + 0x100 * a(4 * i + 3)))
  }

  predicate SameByte(a: Text, b: Text, i: nat) {
    a(i) == b(i)
  }

  predicate SameUpTo(a: Text, b: Text, n: nat) {
    forall i :: 0 <= i < n ==> SameByte(a, b, i)
  }

  predicate IsLength(s: Text, len: nat, n: nat) {
    n <= len && (n < len ==> s(n) == 0) && forall i :: 0 <= i < n ==> s(i) != 0
  }

  /** Equal as strings, as far as `len` characters. */
  ghost predicate StringsEqual(a: Text, b: Text, len: nat) {
    exists n :: IsLength(a, len, n) && IsLength(b, len, n) && SameUpTo(a, b, n)
  }

  /** The memory holds `name` as a C string. */
  predicate Named(text: Text, name: seq<Byte>) {
    && (forall i :: 0 <= i < |name| ==> text(i) == name[i] != 0)
    && text(|name|) == 0
  }

  /** Strings shorter than the limit compare equal exactly if they are equal. */
  lemma EqualNames(a: Text, b: Text, nameA: seq<Byte>, nameB: seq<Byte>, len: nat)
    requires Named(a, nameA) && Named(b, nameB) && |nameA| < len && |nameB| < len
    ensures StringsEqual(a, b, len) <==> nameA == nameB
  {
    assert IsLength(a, len, |nameA|) && IsLength(b, len, |nameB|);
    if n: nat :| IsLength(a, len, n) && IsLength(b, len, n) && SameUpTo(a, b, n) {
      OneLength(a, len, n, |nameA|);
      OneLength(b, len, n, |nameB|);
      forall i | 0 <= i < n
        ensures nameA[i] == nameB[i]
      {
        assert SameByte(a, b, i);
      }
      assert nameA == nameB;
    }
    if nameA == nameB {
      assert SameUpTo(a, b, |nameA|) && SameByte(a, b, |nameA|);
      Agree(a, b, len, |nameA|);
    }
  }

  lemma OneLength(s: Text, len: nat, m: nat, n: nat)
    requires IsLength(s, len, m) && IsLength(s, len, n)
    ensures m == n
  {
  }

  method Strnlen(s: Text, len: nat) returns (n: nat)
    ensures IsLength(s, len, n)
  {
    n := 0;
    while n < len
      invariant n <= len && forall i :: 0 <= i < n ==> s(i) != 0
    {
      if s(n) == 0 { return; }
      n := n + 1;
    }
  }

  lemma LowByte(low: Byte, high: nat, low': Byte, high': nat)
    ensures low + 0x100 * high == low' + 0x100 * high' <==> low == low' && high == high'
  {
  }

  /** The words are the same exactly when their four bytes are. */
  lemma SameWord(a: Text, b: Text, i: nat)
    ensures WordAt(a, i) == WordAt(b, i) <==>
      SameByte(a, b, 4 * i) && SameByte(a, b, 4 * i + 1) && SameByte(a, b, 4 * i + 2) && SameByte(a, b, 4 * i + 3)
  {
    var a1, b1 := a(4 * i + 2) + 0x100 * a(4 * i + 3), b(4 * i + 2) + 0x100 * b(4 * i + 3);
    LowByte(a(4 * i + 2), a(4 * i + 3), b(4 * i + 2), b(4 * i + 3));
    LowByte(a(4 * i + 1), a1, b(4 * i + 1), b1);
    LowByte(a(4 * i), a(4 * i + 1) + 0x100 * a1, b(4 * i), b(4 * i + 1) + 0x100 * b1);
  }

  lemma EqualMeans(a: Text, b: Text, len: nat, n: nat, i: nat)
    requires StringsEqual(a, b, len) && IsLength(a, len, n) && i <= n && i < len
    ensures SameByte(a, b, i)
  {
    var m :| IsLength(a, len, m) && IsLength(b, len, m) && SameUpTo(a, b, m);
    OneLength(a, len, m, n);
  }

  lemma Agree(a: Text, b: Text, len: nat, n: nat)
    requires IsLength(a, len, n) && SameUpTo(a, b, n) && (n < len ==> SameByte(a, b, n))
    ensures StringsEqual(a, b, len)
  {
    forall i | 0 <= i < n
      ensures b(i) != 0
    {
      assert SameByte(a, b, i);
    }
    assert IsLength(b, len, n);
  }

  /** Zero exactly for strings that are equal up to `len` characters. */
  method Strncmp(a: Text, b: Text, len: nat) returns (r: int)
    ensures r == 0 <==> StringsEqual(a, b, len)
  {
    var aLen := Strnlen(a, len);
    var dwords := aLen / 4;
    var i := 0;
    while i < dwords
      invariant i <= dwords && SameUpTo(a, b, 4 * i)
    {
      SameWord(a, b, i);
      var diff := (WordAt(a, i) - WordAt(b, i)) % 0x1_0000_0000;
      if diff != 0 {
        var k := if !SameByte(a, b, 4 * i) then 4 * i
                 else if !SameByte(a, b, 4 * i + 1) then 4 * i + 1
                 else if !SameByte(a, b, 4 * i + 2) then 4 * i + 2 else 4 * i + 3;
        if StringsEqual(a, b, len) { EqualMeans(a, b, len, aLen, k); }
        return diff;
      }
      i := i + 1;
    }
    i := i * 4;
    while i < len
      invariant i <= aLen <= len && SameUpTo(a, b, i)
    {
      var diff := a(i) - b(i);
      if diff != 0 {
        if StringsEqual(a, b, len) { EqualMeans(a, b, len, aLen, i); }
        return diff;
      }
      if a(i) == 0 {
        Agree(a, b, len, aLen);
        return 0;
      }
      i := i + 1;
    }
    Agree(a, b, len, aLen);
    return 0;
  }

  /** `n` bytes of `src` laid over `dst` at `at`. */
  function Over(dst: seq<Byte>, at: nat, src: seq<Byte>, n: nat): (r: seq<Byte>)
    requires n <= |src| && at + n <= |dst|
    ensures |r| == |dst|
  {
    dst[..at] + src[..n] + dst[at + n..]
  }

  lemma OverMore(dst: seq<Byte>, at: nat, src: seq<Byte>, n: nat)
    requires n < |src| && at + n < |dst|
    ensures Over(dst, at, src, n)[at + n := src[n]] == Over(dst, at, src, n + 1)
  {
  }

  /** Copies `num` bytes of `src` to `dst` at `at`. */
  method Memcpy(dst: array<Byte>, at: nat, src: seq<Byte>, num: nat)
    requires num <= |src| && at + num <= dst.Length
    modifies dst
    ensures dst[..] == Over(old(dst[..]), at, src, num)
  {
    var words := num / 4;
    ghost var was := dst[..];
    hide Over;
    assert Over(was, at, src, 0) == was by { OverNone(was, at, src); }
    for i := 0 to words
      invariant dst[..] == Over(was, at, src, 4 * i)
    {
      var k := 4 * i;
      OverMore(was, at, src, k);
      OverMore(was, at, src, k + 1);
      OverMore(was, at, src, k + 2);
      OverMore(was, at, src, k + 3);
      dst[at + k] := src[k];
      assert dst[..] == Over(was, at, src, k + 1);
      dst[at + k + 1] := src[k + 1];
      assert dst[..] == Over(was, at, src, k + 2);
      dst[at + k + 2] := src[k + 2];
      assert dst[..] == Over(was, at, src, k + 3);
      dst[at + k + 3] := src[k + 3];
    }
    for i := words * 4 to num
      invariant dst[..] == Over(was, at, src, i)
    {
      OverMore(was, at, src, i);
      dst[at + i] := src[i];
    }
  }

  lemma OverNone(dst: seq<Byte>, at: nat, src: seq<Byte>)
    requires at <= |dst|
    ensures Over(dst, at, src, 0) == dst
  {
  }
}
