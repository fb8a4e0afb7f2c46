/** Looking up a file in the archive: find_file_sector and open of src/system/include/devices/tar.h. */
module TarArchive {
  import opened Options
  import opened Strings
  import opened Tar

  const NAME_BYTES := 100
  const SIZE_FIELD := 124
  const SIZE_BYTES := 12
  const MAX_NAME := 0x100

  /** A file as an archiver was given it. */
  datatype Entry = Entry(name: seq<Byte>, contents: seq<Byte>)

  /** The characters of a header, from its name field on. */
  function HeaderText(h: Sector): Text {
    (i: nat) => if i < 512 then h[i] else 0
  }

  function SizeField(h: Sector): seq<Byte> {
    h[SIZE_FIELD..SIZE_FIELD + SIZE_BYTES]
  }

  predicate NameByte(h: Sector, name: seq<Byte>, i: nat)
    requires i < NAME_BYTES
  {
    h[i] == if i < |name| then name[i] else 0
  }

  /** A ustar header ('ustar Interchange Format' of the pax utility in POSIX.1): name, and size in octal. */
  predicate HeaderOf(h: Sector, e: Entry) {
    && 0 < |e.name| <= NAME_BYTES && (forall i :: 0 <= i < |e.name| ==> e.name[i] != 0)
    && (forall i :: 0 <= i < NAME_BYTES ==> NameByte(h, e.name, i))
    && |e.contents| + 511 < UINT
    && SizeField(h) == Octal(|e.contents|, 11) + [0]
  }

  predicate ContentsAt(sd: Device, first: nat, contents: seq<Byte>) {
    forall i :: 0 <= i < |contents| ==> StoredByte(sd, first, i) == contents[i]
  }

  function NextHeader(at: nat, e: Entry): nat {
    at + 1 + (|e.contents| + 511) / 512
  }

  /** The contents begin in the sector after their header, and the next header is the first sector they leave free. */
  lemma NextHeaderFirstFree(at: nat, e: Entry)
    ensures var sectors := NextHeader(at, e) - (at + 1);
      sectors >= 0 && 512 * (sectors - 1) < |e.contents| <= 512 * sectors
  {
  }

  /** Headers and contents one after the other, ended by a header without a name. */
  predicate Archive(sd: Device, at: nat, entries: seq<Entry>)
    decreases |entries|
  {
    if entries == [] then sd(at)[0] == 0
    else
      && HeaderOf(sd(at), entries[0])
      && ContentsAt(sd, at + 1, entries[0].contents)
      && Archive(sd, NextHeader(at, entries[0]), entries[1..])
  }

  /** The sector of the header of entry `i`. */
  function SectorOf(at: nat, entries: seq<Entry>, i: nat): nat
    requires i <= |entries|
    decreases i
  {
    if i == 0 then at else SectorOf(NextHeader(at, entries[0]), entries[1..], i - 1)
  }

  lemma {:induction false} ArchiveAt(sd: Device, at: nat, entries: seq<Entry>, i: nat)
    requires Archive(sd, at, entries) && i <= |entries|
    ensures Archive(sd, SectorOf(at, entries, i), entries[i..])
    ensures i < |entries| ==> SectorOf(at, entries, i + 1) == NextHeader(SectorOf(at, entries, i), entries[i])
    decreases i
  {
    if i == 0 {
      assert entries[0..] == entries;
    } else {
      ArchiveAt(sd, NextHeader(at, entries[0]), entries[1..], i - 1);
      assert entries[1..][i - 1..] == entries[i..];
    }
  }

  /** Eleven octal digits hold any 32-bit number. */
  lemma ElevenDigits()
    ensures Power8(11) > UINT
  {
    assert Power8(5) == 0x8000;
    assert Power8(11) == 8 * (8 * (8 * (8 * (8 * (8 * Power8(5))))));
  }

  lemma SizeRead(h: Sector, e: Entry)
    requires HeaderOf(h, e)
    ensures OctalValue(SizeField(h), 0) == |e.contents|
  {
    ElevenDigits();
    hide Power8, Octal;
    OctalRoundTrip(|e.contents|, 11, [0]);
    assert OctalValue([0], |e.contents| % UINT) == |e.contents|;
  }

  // ---------------------------------------------------------------- matching names

  /** What the lookup compares: the header's characters with at most 256 of the name's. */
  ghost predicate Matches(h: Sector, text: Text) {
    exists n :: IsLength(text, MAX_NAME, n) && StringsEqual(HeaderText(h), text, n)
  }

  /** A name that fits the name field matches exactly the entries whose name it begins. */
  lemma MatchesIsPrefix(h: Sector, e: Entry, text: Text, name: seq<Byte>)
    requires HeaderOf(h, e) && Named(text, name) && |name| <= NAME_BYTES
    ensures Matches(h, text) <==> name <= e.name
  {
    var n := |name|;
    assert IsLength(text, MAX_NAME, n);
    if Matches(h, text) {
      var m :| IsLength(text, MAX_NAME, m) && StringsEqual(HeaderText(h), text, m);
      OneLength(text, MAX_NAME, m, n);
      var k :| IsLength(HeaderText(h), n, k) && IsLength(text, n, k) && SameUpTo(HeaderText(h), text, k);
      assert k == n;
      forall i | 0 <= i < n
        ensures i < |e.name| && name[i] == e.name[i]
      {
        assert SameByte(HeaderText(h), text, i) && NameByte(h, e.name, i);
      }
      if n > 0 { assert name[n - 1] != 0 && n - 1 < |e.name|; }
    }
    if name <= e.name {
      forall i | 0 <= i < n
        ensures SameByte(HeaderText(h), text, i)
      {
        assert NameByte(h, e.name, i) && name[i] == e.name[i];
      }
      assert IsLength(HeaderText(h), n, n) by {
        forall i | 0 <= i < n
          ensures HeaderText(h)(i) != 0
        {
          assert SameByte(HeaderText(h), text, i);
        }
      }
      assert StringsEqual(HeaderText(h), text, n);
    }
  }

  lemma MatchesMeans(h: Sector, text: Text, n: nat)
    requires IsLength(text, MAX_NAME, n)
    ensures Matches(h, text) <==> StringsEqual(HeaderText(h), text, n)
  {
    if m: nat :| IsLength(text, MAX_NAME, m) && StringsEqual(HeaderText(h), text, m) {
      OneLength(text, MAX_NAME, m, n);
    }
  }

  lemma SectorOfFirst(at: nat, entries: seq<Entry>)
    ensures SectorOf(at, entries, 0) == at
  {
  }

  /** What the search finds at the sector of entry `i`, and at the end. */
  lemma HeaderAt(sd: Device, at: nat, entries: seq<Entry>, i: nat)
    requires Archive(sd, at, entries) && i <= |entries|
    ensures var h := sd(SectorOf(at, entries, i));
      if i == |entries| then h[0] == 0
      else
        && h[0] != 0
        && OctalValue(SizeField(h), 0) == |entries[i].contents|
        && |entries[i].contents| + 511 < UINT
        && ContentsAt(sd, SectorOf(at, entries, i) + 1, entries[i].contents)
        && SectorOf(at, entries, i + 1) == SectorOf(at, entries, i) + 1 + (|entries[i].contents| + 511) / 512
  {
    ArchiveAt(sd, at, entries, i);
    if i < |entries| {
      var h, e := sd(SectorOf(at, entries, i)), entries[i];
      assert entries[i..][0] == e;
      assert NameByte(h, e.name, 0);
      SizeRead(h, e);
    }
  }

  // ---------------------------------------------------------------- the file system

  ghost predicate FirstMatch(sd: Device, at: nat, entries: seq<Entry>, text: Text, i: nat)
    requires i < |entries|
  {
    && Matches(sd(SectorOf(at, entries, i)), text)
    && forall j :: 0 <= j < i ==> !Matches(sd(SectorOf(at, entries, j)), text)
  }

  ghost predicate NoMatch(sd: Device, at: nat, entries: seq<Entry>, text: Text, upTo: nat)
    requires upTo <= |entries|
  {
    forall j :: 0 <= j < upTo ==> !Matches(sd(SectorOf(at, entries, j)), text)
  }

  class TarFS {
    const sd: Device
    const rootSector: nat
    const files: seq<TarFile>

    ghost predicate Valid() {
      && rootSector > 0
      && (forall i, j :: 0 <= i < j < |files| ==> files[i] != files[j])
      && (forall i :: 0 <= i < |files| ==> files[i].sd == sd)
    }

    constructor (sd: Device, files: seq<TarFile>)
      requires forall i, j :: 0 <= i < j < |files| ==> files[i] != files[j]
      requires forall i :: 0 <= i < |files| ==> files[i].sd == sd
      ensures Valid() && this.sd == sd && this.files == files && rootSector == 1
    {
      this.sd := sd;
      this.files := files;
      rootSector := 1;
    }

    /** The sector of the first header that matches, with that header; 0 when there is none. */
    method FindFileSector(name: Text, ghost entries: seq<Entry>) returns (sector: nat, header: Sector)
      requires Valid() && Archive(sd, rootSector, entries)
      ensures sector == 0 <==> NoMatch(sd, rootSector, entries, name, |entries|)
      ensures sector != 0 ==>
        && header == sd(sector)
        && exists i :: 0 <= i < |entries|
             && sector == SectorOf(rootSector, entries, i) && FirstMatch(sd, rootSector, entries, name, i)
    {
      hide SectorOf, Archive, Matches, SizeField, OctalValue, ContentsAt, StringsEqual, IsLength;
      var nameLen := Strnlen(name, MAX_NAME);
      var current := rootSector;
      ghost var i := 0;
      SectorOfFirst(rootSector, entries);
      while true
        invariant i <= |entries| && current == SectorOf(rootSector, entries, i) > 0
        invariant NoMatch(sd, rootSector, entries, name, i)
        decreases |entries| - i
      {
        HeaderAt(sd, rootSector, entries, i);
        header := sd(current);
        if header[0] == 0 {
          return 0, header;
        }
        MatchesMeans(header, name, nameLen);
        var diff := Strncmp(HeaderText(header), name, nameLen);
        if diff == 0 {
          assert FirstMatch(sd, rootSector, entries, name, i);
          return current, header;
        }
        var size := ParseOctal(SizeField(header));
        current := current + 1 + (size + BYTES_PER_SECTOR - 1) % UINT / BYTES_PER_SECTOR;
        i := i + 1;
      }
    }

    /** The first file record whose size is 0. */
    method AllocFile() returns (r: Option<TarFile>)
      ensures r.Some? ==> r.value in files && r.value.size == 0
      ensures r.None? ==> forall i :: 0 <= i < |files| ==> files[i].size > 0
    {
      for i := 0 to |files|
        invariant forall j :: 0 <= j < i ==> files[j].size > 0
      {
        if files[i].size == 0 { return Some(files[i]); }
      }
      return None;
    }

    /** The file's record describes the first entry the name matches, at its start unless it is empty. */
    method Open(name: Text, ghost entries: seq<Entry>) returns (r: Option<TarFile>)
      requires Valid() && Archive(sd, rootSector, entries)
      modifies files
      ensures r.None? ==>
        NoMatch(sd, rootSector, entries, name, |entries|) || forall f :: f in files ==> old(f.size) > 0
      ensures r.None? ==> forall f :: f in files ==> f.size == old(f.size)
      ensures r.Some? ==>
        && r.value in files && old(r.value.size) == 0
        && (forall f :: f in files && f != r.value ==> unchanged(f))
        && exists i :: 0 <= i < |entries| && FirstMatch(sd, rootSector, entries, name, i)
             && Describes(r.value, entries[i])
             && (|entries[i].contents| > 0 ==> r.value.cursor == 0 && r.value.InStep())
    {
      hide SectorOf, Archive, Matches, SizeField, OctalValue, ContentsAt, HeaderOf;
      r := AllocFile();
      if r == None {
        return None;
      }
      var file := r.value;
      var sector, header := FindFileSector(name, entries);
      file.headerSector := sector;
      if sector == 0 {
        return None;
      }
      file.size := ParseOctal(SizeField(header));
      ghost var i :| 0 <= i < |entries| && sector == SectorOf(rootSector, entries, i)
                     && FirstMatch(sd, rootSector, entries, name, i);
      HeaderAt(sd, rootSector, entries, i);
      var _ := file.Seek(0);
    }
  }

  /** The record of a file whose contents the archive holds. */
  predicate Describes(file: TarFile, e: Entry)
    reads file
  {
    file.size == |e.contents| && ContentsAt(file.sd, file.headerSector + 1, e.contents)
  }

  /** Seeking to `offset` and reading gives exactly the bytes from `offset` on. */
  method SeekAndRead(file: TarFile, dst: array<Byte>, offset: nat, length: nat, ghost e: Entry) returns (r: nat)
    requires Describes(file, e) && offset + length <= |e.contents| && offset < |e.contents| && length <= dst.Length
    modifies file`cursor, file`currentSector, dst
    ensures r == length && dst[..length] == e.contents[offset..offset + length]
    ensures dst[length..] == old(dst[length..])
    ensures file.cursor == offset + length && Describes(file, e)
  {
    var ok := file.Seek(offset);
    r := file.Read(dst, length);
  }

  lemma EntryMatches(sd: Device, at: nat, entries: seq<Entry>, text: Text, name: seq<Byte>, j: nat)
    requires Archive(sd, at, entries) && Named(text, name) && |name| <= NAME_BYTES && j < |entries|
    ensures Matches(sd(SectorOf(at, entries, j)), text) <==> name <= entries[j].name
  {
    ArchiveAt(sd, at, entries, j);
    assert entries[j..][0] == entries[j];
    MatchesIsPrefix(sd(SectorOf(at, entries, j)), entries[j], text, name);
  }

  /** Entry `i` is the first whose name begins with `name`. */
  predicate FirstNamed(entries: seq<Entry>, name: seq<Byte>, i: nat) {
    i < |entries| && name <= entries[i].name && forall j :: 0 <= j < i ==> !(name <= entries[j].name)
  }

  lemma FirstNamedMatches(sd: Device, at: nat, entries: seq<Entry>, text: Text, name: seq<Byte>, i: nat)
    requires Archive(sd, at, entries) && Named(text, name) && |name| <= NAME_BYTES && FirstNamed(entries, name, i)
    ensures !NoMatch(sd, at, entries, text, |entries|)
    ensures forall k :: 0 <= k < |entries| && FirstMatch(sd, at, entries, text, k) ==> k == i
  {
    forall j | 0 <= j < |entries|
      ensures Matches(sd(SectorOf(at, entries, j)), text) <==> name <= entries[j].name
    {
      EntryMatches(sd, at, entries, text, name, j);
    }
  }

  /**
    The archive round trip: opening a name, seeking and reading gives back what was stored for the
    first entry whose name begins with it.
   */
  method OpenSeekRead(fs: TarFS, text: Text, dst: array<Byte>, offset: nat, length: nat,
                      ghost name: seq<Byte>, ghost entries: seq<Entry>, ghost i: nat) returns (r: nat)
    requires fs.Valid() && Archive(fs.sd, fs.rootSector, entries)
    requires Named(text, name) && |name| <= NAME_BYTES && FirstNamed(entries, name, i)
    requires exists f :: f in fs.files && f.size == 0
    requires offset < |entries[i].contents| && offset + length <= |entries[i].contents| && length <= dst.Length
    modifies fs.files, dst
    ensures r == length
    ensures dst[..length] == entries[i].contents[offset..offset + length]
    ensures dst[length..] == old(dst[length..])
  {
    FirstNamedMatches(fs.sd, fs.rootSector, entries, text, name, i);
    var file := fs.Open(text, entries);
    r := SeekAndRead(file.value, dst, offset, length, entries[i]);
  }
}
