/**
  src/system/include/devices/tar.h: finding a file in an archive, and reading a file through
  512-byte sectors.
 */
module Tar {
  import opened Strings

  const BYTES_PER_SECTOR := 512

  type Sector = s: seq<Byte> | |s| == 512 witness seq(512, _ => 0)

  /** What readsector gives for each sector number. */
  type Device = nat -> Sector

  /** Byte `i` of the consecutive sectors from `first` on. */
  function StoredByte(sd: Device, first: nat, i: nat): Byte {
    sd(first + i / 512)[i % 512]
  }

  // ---------------------------------------------------------------- octal numbers

  const UINT := 0x1_0000_0000

  predicate OctalDigit(b: Byte) {
    '0' as int <= b <= '9' as int
  }

  /** The digits at the front of `str`, in 32 bits, after those that gave `result`. */
  function OctalValue(str: seq<Byte>, result: nat): nat {
    if str == [] || !OctalDigit(str[0]) then result
    else OctalValue(str[1..], (result * 8 + (str[0] - '0' as int)) % UINT)
  }

  lemma ShiftAndAdd(result: nat, digit: nat)
    ensures (result * 8 % UINT + digit) % UINT == (result * 8 + digit) % UINT
  {
  }

  method ParseOctal(str: seq<Byte>) returns (result: nat)
    ensures result == OctalValue(str, 0)
  {
    result := 0;
    var i := 0;
    while i < |str| && OctalDigit(str[i])
      invariant i <= |str| && OctalValue(str[i..], result) == OctalValue(str, 0)
    {
      assert str[i..][1..] == str[i + 1..];
      var digit: nat := str[i] - '0' as int;
      ShiftAndAdd(result, digit);
      result := (result * 8) % UINT;
      result := (result + digit) % UINT;
      i := i + 1;
    }
  }

  /** The `k` lowest octal digits of a number, as characters. */
  function Octal(n: nat, k: nat): (s: seq<Byte>)
    ensures |s| == k
  {
    if k == 0 then [] else Octal(n / 8, k - 1) + ['0' as int + n % 8]
  }

  function Power8(k: nat): nat {
    if k == 0 then 1 else 8 * Power8(k - 1)
  }

  lemma AddDigit(high: nat, digit: nat)
    ensures (high % UINT * 8 + digit) % UINT == (high * 8 + digit) % UINT
  {
  }

  /** Reading back what an archiver writes: the number, in 32 bits. */
  lemma {:induction false} OctalRoundTrip(n: nat, k: nat, rest: seq<Byte>)
    requires n < Power8(k)
    ensures OctalValue(Octal(n, k) + rest, 0) == OctalValue(rest, n % UINT)
  {
    if k == 0 {
      assert Octal(n, k) + rest == rest;
    } else {
      var digit := ['0' as int + n % 8];
      OctalRoundTrip(n / 8, k - 1, digit + rest);
      assert Octal(n, k) + rest == Octal(n / 8, k - 1) + (digit + rest);
      assert (digit + rest)[1..] == rest;
      hide Octal, Power8;
      assert n == n / 8 * 8 + n % 8;
      AddDigit(n / 8, n % 8);
    }
  }

  // ---------------------------------------------------------------- reading a file

  /** How far a read of `length` bytes moves the sector, started `offset` bytes into one. */
  function SectorsPassed(offset: nat, length: nat): nat
    requires offset < 512
  {
    if offset == 0 then length / 512
    else if offset + length > 512 then 1 + (offset + length - 512) / 512
    else 1
  }

  /**
    The sector keeps in step with the cursor exactly when the read starts on a sector boundary
    or reaches the next one.
   */
  lemma SectorInStep(cursor: nat, length: nat)
    ensures cursor / 512 + SectorsPassed(cursor % 512, length) == (cursor + length) / 512
       <==> cursor % 512 == 0 || cursor % 512 + length >= 512
  {
  }

  lemma StoredFrom(sd: Device, first: nat, cursor: nat, i: nat)
    ensures StoredByte(sd, first + cursor / 512, cursor % 512 + i) == StoredByte(sd, first, cursor + i)
  {
    assert (cursor % 512 + i) / 512 + cursor / 512 == (cursor + i) / 512;
    assert (cursor % 512 + i) % 512 == (cursor + i) % 512;
  }

  /** The first `n` bytes of `dst` came from the device, the others are as they were. */
  predicate Filled(dst: seq<Byte>, was: seq<Byte>, n: nat, sd: Device, first: nat, offset: nat) {
    && n <= |dst| == |was|
    && (forall k :: 0 <= k < n ==> dst[k] == StoredByte(sd, first, offset + k))
    && dst[n..] == was[n..]
  }

  lemma FillMore(dst: seq<Byte>, was: seq<Byte>, n: nat, sd: Device, first: nat, offset: nat, sector: nat, from: nat,
                 count: nat)
    requires Filled(dst, was, n, sd, first, offset) && n + count <= |dst|
    requires from + count <= 512 && first * 512 + offset + n == sector * 512 + from && first <= sector
    ensures Filled(Over(dst, n, sd(sector)[from..], count), was, n + count, sd, first, offset)
  {
    var dst' := Over(dst, n, sd(sector)[from..], count);
    forall k | 0 <= k < n + count
      ensures dst'[k] == StoredByte(sd, first, offset + k)
    {
      if k >= n {
        assert first * 512 + offset + k == sector * 512 + (from + k - n);
        assert (offset + k) / 512 == sector - first && (offset + k) % 512 == from + k - n;
      }
    }
    assert dst'[n + count..] == dst[n..][count..];
  }

  class TarFile {
    const sd: Device
    var headerSector: nat
    var currentSector: nat
    var cursor: nat
    var size: nat

    constructor (sd: Device)
      ensures this.sd == sd && size == 0
    {
      this.sd := sd;
      headerSector, currentSector, cursor, size := 0, 0, 0, 0;
    }

    /** The sector the next read starts with is the one the cursor is in. */
    predicate InStep()
      reads this
    {
      currentSector == headerSector + 1 + cursor / 512
    }

    method Seek(offset: int) returns (ok: bool)
      modifies this`cursor, this`currentSector
      ensures ok <==> 0 <= offset < size
      ensures ok ==> cursor == offset && InStep()
      ensures !ok ==> cursor == old(cursor) && currentSector == old(currentSector)
    {
      if offset < 0 || offset >= size {
        return false;
      }
      cursor := offset;
      currentSector := headerSector + 1 + offset / BYTES_PER_SECTOR;
      return true;
    }

    method ReadSector(dst: array<Byte>, at: nat, sector: nat)
      requires at + 512 <= dst.Length
      modifies dst
      ensures dst[..] == Over(old(dst[..]), at, sd(sector), 512)
    {
      Memcpy(dst, at, sd(sector), 512);
    }

    /** The first part of a read that starts inside a sector: up to the next boundary at most. */
    method ReadHead(dst: array<Byte>, len: nat, cursorMod: nat) returns (bytesToRead: nat)
      requires len <= dst.Length && 0 < cursorMod < 512
      modifies this`currentSector, dst
      ensures bytesToRead == if cursorMod + len > 512 then 512 - cursorMod else len
      ensures currentSector == old(currentSector) + 1
      ensures Filled(dst[..], old(dst[..]), bytesToRead, sd, old(currentSector), cursorMod)
    {
      var end := cursorMod + len;
      var max := if end > BYTES_PER_SECTOR then BYTES_PER_SECTOR else end;
      bytesToRead := max - cursorMod;
      FillMore(dst[..], dst[..], 0, sd, currentSector, cursorMod, currentSector, cursorMod, bytesToRead);
      Memcpy(dst, 0, sd(currentSector)[cursorMod..], bytesToRead);
      currentSector := currentSector + 1;
    }

    /** The rest, from a boundary on: whole sectors, then the front of one more. */
    method ReadRest(dst: array<Byte>, from: nat, len: nat, ghost was: seq<Byte>, ghost first: nat, ghost offset: nat)
      requires from + len <= dst.Length
      requires Filled(dst[..], was, from, sd, first, offset)
      requires len > 0 ==> first * 512 + offset + from == currentSector * 512 && first <= currentSector
      modifies this`currentSector, dst
      ensures currentSector == old(currentSector) + len / 512
      ensures Filled(dst[..], was, from + len, sd, first, offset)
    {
      hide Filled, Over;
      var wholeSects, endMod, at := len / BYTES_PER_SECTOR, len % 512, from;
      for i := 0 to wholeSects
        invariant at == from + i * 512 && currentSector == old(currentSector) + i
        invariant Filled(dst[..], was, at, sd, first, offset)
      {
        FillMore(dst[..], was, at, sd, first, offset, currentSector, 0, 512);
        assert sd(currentSector)[0..] == sd(currentSector);
        ReadSector(dst, at, currentSector);
        currentSector := currentSector + 1;
        at := at + BYTES_PER_SECTOR;
      }
      if endMod != 0 {
        FillMore(dst[..], was, at, sd, first, offset, currentSector, 0, endMod);
        assert sd(currentSector)[0..] == sd(currentSector);
        Memcpy(dst, at, sd(currentSector), endMod);
      }
    }

    /** Returns `length`, or 0 past the end; the bytes are those at the current sector. */
    method Read(dst: array<Byte>, length: nat) returns (r: nat)
      requires length <= dst.Length
      modifies this`cursor, this`currentSector, dst
      ensures old(cursor) + length > size ==>
        r == 0 && cursor == old(cursor) && currentSector == old(currentSector) && dst[..] == old(dst[..])
      ensures old(cursor) + length <= size ==>
        && r == length
        && cursor == old(cursor) + length
        && currentSector == old(currentSector) + SectorsPassed(old(cursor) % 512, length)
        && Filled(dst[..], old(dst[..]), length, sd, old(currentSector), old(cursor) % 512)
      ensures old(InStep()) && old(cursor) + length <= size ==>
        && Filled(dst[..], old(dst[..]), length, sd, headerSector + 1, old(cursor))
        && (InStep() <==> old(cursor) % 512 == 0 || old(cursor) % 512 + length >= 512)
    {
      if cursor + length > size {
        return 0;
      }
      ghost var was, first := dst[..], currentSector;
      var cursorMod := cursor % 512;
      var len, at := length, 0;
      assert Filled(dst[..], was, 0, sd, first, cursorMod);
      hide Filled, SectorsPassed, Over, StoredByte;
      if cursorMod != 0 {
        at := ReadHead(dst, len, cursorMod);
        len := len - at;
      }
      ReadRest(dst, at, len, was, first, cursorMod);
      Passed(cursorMod, length);
      cursor := cursor + length;
      ReadInStep(dst[..], was, length, sd, headerSector + 1, old(cursor), first, currentSector);
      return length;
    }
  }

  /** A read that starts in step reads the file's own bytes. */
  lemma ReadInStep(dst: seq<Byte>, was: seq<Byte>, n: nat, sd: Device, start: nat, cursor: nat, first: nat, sector: nat)
    requires Filled(dst, was, n, sd, first, cursor % 512)
    requires sector == first + SectorsPassed(cursor % 512, n)
    ensures first == start + cursor / 512 ==>
      && Filled(dst, was, n, sd, start, cursor)
      && (sector == start + (cursor + n) / 512 <==> cursor % 512 == 0 || cursor % 512 + n >= 512)
  {
    SectorInStep(cursor, n);
    if first == start + cursor / 512 {
      InFile(dst, was, n, sd, start, cursor);
    }
  }

  lemma Passed(offset: nat, length: nat)
    requires offset < 512
    ensures offset == 0 ==> SectorsPassed(offset, length) == length / 512
    ensures offset > 0 && offset + length > 512 ==>
      SectorsPassed(offset, length) == 1 + (length - (512 - offset)) / 512
    ensures offset > 0 && offset + length <= 512 ==> SectorsPassed(offset, length) == 1
  {
  }

  lemma InFile(dst: seq<Byte>, was: seq<Byte>, n: nat, sd: Device, first: nat, cursor: nat)
    requires Filled(dst, was, n, sd, first + cursor / 512, cursor % 512)
    ensures Filled(dst, was, n, sd, first, cursor)
  {
    forall k | 0 <= k < n
      ensures dst[k] == StoredByte(sd, first, cursor + k)
    {
      StoredFrom(sd, first, cursor, k);
    }
  }
}
