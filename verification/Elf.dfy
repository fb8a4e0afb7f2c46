/** The symbol lookup of src/system/include/elfparser.h: a System V hash table against a linear search. */
module Elf {
  import opened Strings

  /** Names are compared up to this many characters. */
  const NAME_LIMIT := 0x40

  function HashStep(h: bv32, c: Byte): (r: bv32)
    ensures r & 0xF000_0000 == 0
  {
    var h1 := (h << 4) + (c as bv32);
    var g := h1 & 0xF000_0000;
    (if g != 0 then h1 ^ (g >> 24) else h1) & !g
  }

  /** The hash of the System V ABI (chapter 5, 'Hash Table'); it has 28 bits. */
  function Hash(name: seq<Byte>): (h: bv32)
    ensures h & 0xF000_0000 == 0
  {
    if name == [] then 0 else HashStep(Hash(name[..|name| - 1]), name[|name| - 1])
  }

  lemma HashMore(name: seq<Byte>, c: Byte, h: bv32)
    requires Hash(name) == h
    ensures Hash(name + [c]) == HashStep(h, c)
  {
    assert (name + [c])[..|name|] == name;
  }

  lemma EmptyHash()
    ensures Hash([]) == 0
  {
  }

  lemma FirstSteps()
    ensures HashStep(0, 115) == 0x73
    ensures HashStep(0x73, 121) == 0x7A9
    ensures HashStep(0x7A9, 115) == 0x7B03
    ensures HashStep(0x7B03, 99) == 0x7B093
  {
  }

  lemma LastSteps()
    ensures HashStep(0x7B093, 97) == 0x7B0991
    ensures HashStep(0x7B0991, 108) == 0x7B0997C
    ensures HashStep(0x7B0997C, 108) == 0xB09985C
  {
  }

  /** The hash that every compiler of the ABI puts into its tables for the name `syscall`. */
  lemma KnownHash()
    ensures Hash([115, 121, 115, 99, 97, 108, 108]) == 0x0B09_985C
  {
    hide Hash, HashStep;
    EmptyHash();
    FirstSteps();
    LastSteps();
    HashMore([], 115, 0);
    assert [] + [115 as Byte] == [115];
    HashMore([115], 121, 0x73);
    assert [115] + [121] == [115, 121];
    HashMore([115, 121], 115, 0x7A9);
    assert [115, 121] + [115] == [115, 121, 115];
    HashMore([115, 121, 115], 99, 0x7B03);
    assert [115, 121, 115] + [99] == [115, 121, 115, 99];
    HashMore([115, 121, 115, 99], 97, 0x7B093);
    assert [115, 121, 115, 99] + [97] == [115, 121, 115, 99, 97];
    HashMore([115, 121, 115, 99, 97], 108, 0x7B0991);
    assert [115, 121, 115, 99, 97] + [108] == [115, 121, 115, 99, 97, 108];
    HashMore([115, 121, 115, 99, 97, 108], 108, 0x7B0997C);
    assert [115, 121, 115, 99, 97, 108] + [108] == [115, 121, 115, 99, 97, 108, 108];
  }

  method ElfHash(text: Text, ghost name: seq<Byte>) returns (h: bv32)
    requires Named(text, name)
    ensures h == Hash(name)
  {
    h := 0;
    var i := 0;
    while text(i) != 0
      invariant i <= |name| && h == Hash(name[..i])
      decreases |name| - i
    {
      h := HashStep(h, text(i));
      i := i + 1;
      assert name[..i][..i - 1] == name[..i - 1];
    }
    assert name[..i] == name;
  }

  /** The hash section, the symbols' name offsets, and the string table. */
  datatype Table = Table(buckets: seq<nat>, chains: seq<nat>, symbols: seq<nat>, strtab: Text)

  function NameAt(t: Table, i: nat): Text
    requires i < |t.symbols|
  {
    (k: nat) => t.strtab(t.symbols[i] + k)
  }

  function Remainder(n: nat, count: nat): (r: nat)
    requires count > 0
    ensures r < count
  {
    n % count
  }

  function BucketOf(h: bv32, count: nat): (b: nat)
    requires count > 0
    ensures b < count
  {
    hide Remainder;
    Remainder(h as nat, count)
  }

  function Bucket(t: Table, name: seq<Byte>): nat
    requires |t.buckets| > 0
  {
    BucketOf(Hash(name), |t.buckets|)
  }

  /** `list` is the chain that starts with symbol `first`: 0 ends it, and 0 alone is the empty one. */
  predicate Chain(t: Table, first: nat, list: seq<nat>)
    requires |t.chains| == |t.symbols|
    decreases |list|
  {
    if list == [] then first == 0
    else
      && 0 < first < |t.symbols| && first == list[0]
      && Chain(t, t.chains[first], list[1..])
  }

  predicate NamesOk(t: Table, names: seq<seq<Byte>>) {
    && |names| == |t.symbols|
    && forall i :: 0 <= i < |names| ==> Named(NameAt(t, i), names[i]) && |names[i]| < NAME_LIMIT
  }

  /**
    A well-formed table (System V ABI, chapter 5, 'Hash Table'): every chain ends, and holds every
    symbol whose name hashes to its bucket.  Symbol 0 is the undefined symbol.
   */
  predicate WellFormed(t: Table, names: seq<seq<Byte>>, lists: seq<seq<nat>>) {
    && |t.buckets| == |lists| > 0
    && |t.chains| == |t.symbols| > 0
    && t.chains[0] == 0
    && NamesOk(t, names)
    && (forall b :: 0 <= b < |lists| ==> Chain(t, t.buckets[b], lists[b]))
    && (forall i :: 1 <= i < |names| ==> i in lists[Bucket(t, names[i])])
  }

  /** No symbol before place `k` of the chain has the name. */
  predicate NotBefore(names: seq<seq<Byte>>, list: seq<nat>, k: nat, name: seq<Byte>) {
    k <= |list| && forall j :: 0 <= j < k ==> list[j] < |names| && names[list[j]] != name
  }

  /** Symbols with the name can only be in the name's own chain. */
  lemma OnlyInChain(t: Table, names: seq<seq<Byte>>, lists: seq<seq<nat>>, name: seq<Byte>)
    requires WellFormed(t, names, lists)
    requires NotBefore(names, lists[Bucket(t, name)], |lists[Bucket(t, name)]|, name)
    ensures name !in names[1..]
  {
    forall i | 1 <= i < |names|
      ensures names[i] != name
    {
      assert i in lists[Bucket(t, names[i])];
    }
  }

  /**
    Finds a symbol after the undefined one exactly when a linear search would.  It returns the
    undefined symbol instead of failing when the bucket is empty and that symbol has the name.
   */
  method GetSymbolIndex(t: Table, text: Text, ghost name: seq<Byte>, ghost names: seq<seq<Byte>>,
                        ghost lists: seq<seq<nat>>) returns (r: int)
    requires WellFormed(t, names, lists) && Named(text, name) && |name| < NAME_LIMIT
    ensures -1 <= r < |names|
    ensures r > 0 <==> name in names[1..]
    ensures r >= 0 ==> names[r] == name
    ensures r == 0 <==> lists[Bucket(t, name)] == [] && names[0] == name
  {
    hide Hash, BucketOf, NameAt, StringsEqual, Chain;
    var h := ElfHash(text, name);
    var bucket := BucketOf(h, |t.buckets|);
    ghost var list := lists[bucket];
    var symIndex: nat := t.buckets[bucket];
    ghost var k: nat := 0;
    assert list[0..] == list;
    while true
      invariant k <= |list| && Chain(t, symIndex, list[k..]) && NotBefore(names, list, k, name)
      invariant k == |list| ==> k == 0
      decreases |list| - k
    {
      ChainStep(t, symIndex, list, k);
      EqualNames(NameAt(t, symIndex), text, names[symIndex], name, NAME_LIMIT);
      var diff := Strncmp(NameAt(t, symIndex), text, NAME_LIMIT);
      if diff == 0 {
        if list == [] {
          OnlyInChain(t, names, lists, name);
        } else {
          assert names[1..][symIndex - 1] == name;
        }
        return symIndex;
      }
      symIndex := t.chains[symIndex];
      if k < |list| { k := k + 1; }
      if symIndex == 0 {
        break;
      }
    }
    assert k == |list|;
    OnlyInChain(t, names, lists, name);
    return -1;
  }

  /** From one symbol of a chain to the next. */
  lemma ChainStep(t: Table, symIndex: nat, list: seq<nat>, k: nat)
    requires |t.chains| == |t.symbols| > 0 && k <= |list| && Chain(t, symIndex, list[k..])
    ensures symIndex < |t.symbols|
    ensures k == |list| ==> symIndex == 0
    ensures k < |list| ==> symIndex == list[k] > 0 && Chain(t, t.chains[symIndex], list[k + 1..])
    ensures k < |list| ==> (t.chains[symIndex] == 0 <==> k + 1 == |list|)
  {
    if k < |list| {
      assert list[k..][1..] == list[k + 1..];
    }
  }
}
