/** src/system/memory.cpp: physical frames, page tables on demand, and virt_alloc_pages. */
module PageAllocation {
  import opened BitOps
  import opened BitAllocation
  import opened FrameLists
  import opened Options
  import opened PageTables

  const FRAME_BYTES := 4096
  const BITMAP_BYTES := FRAMES / 8

  /** The first address behind the first table, the directory and the bitmap at start-up, as a page. */
  function FirstFreePage(base: nat): nat {
    (base + 2 * FRAME_BYTES + BITMAP_BYTES) / FRAME_BYTES
  }

  /** The bits of the frames that hold the bitmap itself, behind the first two tables. */
  function BitmapStart(base: nat): nat {
    (base + 2 * FRAME_BYTES) / FRAME_BYTES
  }

  function BitmapEnd(base: nat): nat {
    (base + 2 * FRAME_BYTES + BITMAP_BYTES + FRAME_BYTES - 1) / FRAME_BYTES
  }

  /** Start-up leaves two tables: the first, for the low 4 MB, and the directory itself. */
  predicate FirstTables(words: Words, dir: Frame, base: nat)
    requires Sized(words)
  {
    base / FRAME_BYTES < FRAMES &&
    forall d :: 0 <= d < TABLE ==>
      Pde(words, dir, d) ==
        (if d == 0 then Some(base / FRAME_BYTES) else if d == PDIR_SELF_INDEX then Some(dir) else None)
  }

  /** The first `n` pages are mapped to the frames with their own numbers. */
  predicate Identity(words: Words, dir: Frame, n: nat)
    requires Sized(words) && n <= TABLE
  {
    forall v :: 0 <= v < n ==> Translate(words, dir, v) == Some(v)
  }

  /** Every random number drawn for a table starts a search among full blocks only. */
  predicate NoTableAround(blocks: seq<Word>, prand: nat -> nat, pages: nat) {
    forall k :: 0 < k <= pages ==> FullBlocks(blocks, prand(k) % STARTS, |blocks|)
  }

  class PageAllocator {
    const bits: BitAllocator
    const words: array<Option<Frame>>
    const dir: Frame

    predicate Valid()
      reads this, bits, bits.blocks, words
    {
      && bits.Valid()
      && 32 * bits.blocks.Length == FRAMES
      && bits.blocks[0] == Full()
      && words.Length == FRAMES * TABLE
      && words as object != bits.blocks
      && Apart(words[..], dir, bits.blocks[..])
    }

    /** initialize_memory, for free physical memory at `base` within the low 4 MB. */
    constructor (base: nat)
      requires base % FRAME_BYTES == 0 && base > 0 && BitmapEnd(base) <= LOW_FRAMES
      ensures Valid() && fresh(bits) && fresh(bits.blocks) && fresh(words)
      ensures forall f :: 0 <= f < FRAMES ==> (Taken(bits.blocks[..], f) <==> f < LOW_FRAMES)
      ensures dir == base / FRAME_BYTES + 1 && FirstTables(words[..], dir, base)
      ensures Identity(words[..], dir, TABLE)
    {
      bits := new BitAllocator(FRAMES);
      words := new Option<Frame>[FRAMES * TABLE];
      dir := base / FRAME_BYTES + 1;
      new;
      BitmapLow(base);
      hide BitmapStart, BitmapEnd, FirstTables, Apart, Identity, FirstFreePage, RangeLocked;
      bits.LockBitRange(BitmapStart(base), BitmapEnd(base) - BitmapStart(base));
      ClearDirectory(base);
      bits.LockBitRange(0, LOW_FRAMES);
      LowFull(bits.blocks[..]);
      FirstApart(words[..], dir, bits.blocks[..], base);
      IdentityMap(base);
    }

    /** The directory of initialize_memory: empty but for the first table and itself. */
    method ClearDirectory(base: nat)
      requires words.Length == FRAMES * TABLE && dir == base / FRAME_BYTES + 1
      modifies words
      ensures FirstTables(words[..], dir, base)
    {
      for t := 0 to TABLE
        invariant forall d :: 0 <= d < t ==> words[WordOf(dir, d)] == None
      {
        words[WordOf(dir, t)] := None;
      }
      words[WordOf(dir, 0)] := Some(base / FRAME_BYTES);
      words[WordOf(dir, PDIR_SELF_INDEX)] := Some(dir);
    }

    /** The end of initialize_memory: the low 4 MB are mapped to themselves, what is in use by now first. */
    method IdentityMap(base: nat)
      requires Valid() && FirstTables(words[..], dir, base) && FirstFreePage(base) <= TABLE
      modifies bits.blocks, words
      ensures Valid() && bits.blocks[..] == old(bits.blocks[..])
      ensures FirstTables(words[..], dir, base) && Identity(words[..], dir, TABLE)
    {
      hide FirstTables, Identity, Apart;
      NoneMapped(words[..], dir);
      var i := 0;
      while i < FirstFreePage(base)
        invariant i <= FirstFreePage(base)
        invariant Valid() && FirstTables(words[..], dir, base) && Identity(words[..], dir, i)
        invariant bits.blocks[..] == old(bits.blocks[..])
      {
        MapLow(i, base);
        i := i + 1;
      }
      while i < TABLE
        invariant i <= TABLE
        invariant Valid() && FirstTables(words[..], dir, base) && Identity(words[..], dir, i)
        invariant bits.blocks[..] == old(bits.blocks[..])
      {
        MapLow(i, base);
        i := i + 1;
      }
    }

    /** One turn of the loops that map the low 4 MB to itself. */
    method MapLow(i: nat, base: nat)
      requires Valid() && i < TABLE
      requires FirstTables(words[..], dir, base) && Identity(words[..], dir, i)
      modifies bits.blocks, words
      ensures Valid() && bits.blocks[..] == old(bits.blocks[..])
      ensures FirstTables(words[..], dir, base) && Identity(words[..], dir, i + 1)
    {
      ghost var was := words[..];
      assert Pde(was, dir, 0) == Some(base / FRAME_BYTES);
      MapTo(i, i, 0);
      IdentityMore(was, words[..], dir, bits.blocks[..], i, Pde(words[..], dir, 0).value);
    }

    /** `random` is the number prand() gives. */
    method LockNextPage(random: nat) returns (f: Frame)
      requires Valid()
      modifies bits.blocks
      ensures Valid()
      ensures FrameTaken(old(bits.blocks[..]), bits.blocks[..], f, random % STARTS)
    {
      ghost var was := bits.blocks[..];
      var start := random % STARTS;
      var index, locked := bits.LockNextBlock(start);
      if locked == Full() {
        return 0;
      }
      var bit := LowestZero(locked);
      bits.UnlockBlock(locked + {bit}, index);
      f := index * 32 + bit;

      FullBlocksTaken(was, start, index);
      FirstInBlock(was, index, bit);
      NextClearIs(was, 32 * start, 32 * |was|, f);
      assert bits.blocks[..] == Marked(was, f);
      assert !FullBlocks(was, start, |was|);
      MarkedTakes(was, f);
    }

    /** Makes sure that the page has a page table. */
    method EnsurePte(page: nat, random: nat)
      requires Valid() && Mappable(page, 1)
      modifies bits.blocks, words
      ensures Valid()
      ensures old(Pde(words[..], dir, Directory(page))).Some? ==>
        words[..] == old(words[..]) && bits.blocks[..] == old(bits.blocks[..])
      ensures Pde(words[..], dir, Directory(page)).Some?
      ensures old(Pde(words[..], dir, Directory(page))).None? ==>
        && words[..] == WithTable(old(words[..]), dir, page, Pde(words[..], dir, Directory(page)).value)
        && FrameTaken(old(bits.blocks[..]), bits.blocks[..], Pde(words[..], dir, Directory(page)).value,
                      random % STARTS)
    {
      var w := WordOf(dir, Directory(page));
      if words[w].None? {
        ghost var was, before := words[..], bits.blocks[..];
        var table := LockNextPage(random);
        words[w] := Some(table);
        if !FullBlocks(before, random % STARTS, |before|) { MarkedTakes(before, table); }
        FoundIff(before, bits.blocks[..], table, random % STARTS);
        ApartTable(was, dir, before, bits.blocks[..], page, table);
        assert words[..] == WithTable(was, dir, page, table);
      }
    }

    /** Maps the page to frame `f`, finding a page table first where there is none. */
    method MapTo(page: nat, f: Frame, random: nat)
      requires Valid() && Mappable(page, 1)
      modifies bits.blocks, words
      ensures Valid()
      ensures Pde(words[..], dir, Directory(page)).Some?
      ensures words[..] == WithPage(old(words[..]), dir, page, f, Pde(words[..], dir, Directory(page)).value)
      ensures old(Pde(words[..], dir, Directory(page))).Some? ==> bits.blocks[..] == old(bits.blocks[..])
      ensures old(Pde(words[..], dir, Directory(page))).None? ==>
        FrameTaken(old(bits.blocks[..]), bits.blocks[..], Pde(words[..], dir, Directory(page)).value, random % STARTS)
    {
      EnsurePte(page, random);
      ghost var w := words[..];
      var table := words[WordOf(dir, Directory(page))].value;
      words[WordOf(table, page % TABLE)] := Some(f);
      assert words[..] == w[SlotOf(w, dir, page) := Some(f)];
      ApartPage(w, dir, bits.blocks[..], page, f);
    }

    /**
      Maps `pages` pages from `page` on, and says whether it could: `frames` went to the pages, in
      order, and `tables` to directories. `prand` gives the random numbers: number 0 for this call,
      the others for the tables.
     */
    method VirtAllocPages(pages: nat, page: nat, prand: nat -> nat)
        returns (ok: bool, ghost frames: seq<nat>, ghost tables: seq<nat>)
      requires Valid() && pages > 0 && Mappable(page, pages)
      modifies bits.blocks, words
      ensures Valid()
      ensures Mapped(old(words[..]), words[..], dir, old(bits.blocks[..]), bits.blocks[..], page, frames, tables)
      ensures if ok then |frames| == pages else
        |frames| < pages && FullBlocks(bits.blocks[..], prand(0) % STARTS, bits.blocks.Length)
      ensures old(RoomForPages(words[..], dir, bits.blocks[..], page, pages, prand(0) % STARTS)) ==> ok
      ensures old(Room(words[..], dir, bits.blocks[..], page, pages)) ==>
        ok && TablesFound(old(words[..]), words[..], dir, page, pages)
      ensures old(Room(words[..], dir, bits.blocks[..], page, pages) && NoneZero(words[..], dir, page, pages)) ==>
        ok && AllMapped(old(words[..]), words[..], dir, old(bits.blocks[..]), bits.blocks[..], page, frames, tables)
      ensures old(NoTableAround(bits.blocks[..], prand, pages)) ==> tables == []
    {
      hide AllMapped, NoneZero, Mapped, Room, RoomForPages, TablesFound, WithPage, Apart, NoTableAround, FrameTaken;
      ghost var was, before := words[..], bits.blocks[..];
      var left := pages;
      var next := page;
      var start := prand(0) % STARTS;
      var index := start;
      frames, tables := [], [];
      MappedNone(was, dir, before, page);
      TablesNone(was, dir, page);
      while true
        invariant 0 < left <= pages && |frames| == pages - left && next == page + |frames|
        invariant Valid() && start <= index < bits.blocks.Length
        invariant Mapped(was, words[..], dir, before, bits.blocks[..], page, frames, tables)
        invariant FullBlocks(bits.blocks[..], start, index)
        invariant Room(was, dir, before, page, pages) ==> TablesFound(was, words[..], dir, page, |frames|)
        invariant NoTableAround(before, prand, pages) ==> tables == []
        decreases left
      {
        ghost var blocks := bits.blocks[..];
        var locked: Word;
        index, locked := bits.LockNextBlock(index);
        if index == 0 {
          NoRoom(was, words[..], dir, before, blocks, page, frames, tables, pages, start);
          return false, frames, tables;
        }
        assert bits.blocks[..][index := locked] == blocks;
        HeldApart(words[..], dir, blocks, index);
        var frame: nat := index * 32;
        var testbit: nat := 0;
        ghost var round := left;
        while locked != Full()
          invariant 0 < left <= round && |frames| == pages - left && next == page + |frames|
          invariant Valid() && start <= index < bits.blocks.Length && 0 < index
          invariant testbit <= 32 && frame == index * 32 + testbit
          invariant forall k: Bit :: k < testbit ==> k in locked
          invariant left == round ==> locked != Full()
          invariant bits.blocks[index] == Full()
          invariant Mapped(was, words[..], dir, before, bits.blocks[..][index := locked], page, frames, tables)
          invariant FullBlocks(bits.blocks[..], start, index)
          invariant Room(was, dir, before, page, pages) ==> TablesFound(was, words[..], dir, page, |frames|)
          invariant NoTableAround(before, prand, pages) ==> tables == []
          decreases 32 - testbit
        {
          BelowFull(locked, testbit);
          if testbit !in locked {
            ghost var now, truth := words[..], bits.blocks[..][index := locked];
            assert truth[index := Full()] == bits.blocks[..];
            MapTo(next, frame, prand(left));
            tables := MapOne(was, now, dir, before, truth, bits.blocks[..], page, frames, tables, pages, index, testbit,
                             start, prand, left, words[..], Pde(now, dir, Directory(next)).None?,
                             Pde(words[..], dir, Directory(next)).value);
            frames := frames + [frame];
            locked := locked + {testbit};
            next := next + 1;
            left := left - 1;
            if left <= 0 {
              bits.UnlockBlock(locked, index);
              MappedApart(was, words[..], dir, before, bits.blocks[..], page, frames, tables);
              if Room(was, dir, before, page, pages) && NoneZero(was, dir, page, pages) {
                AllFound(was, words[..], dir, before, bits.blocks[..], page, frames, tables);
              }
              return true, frames, tables;
            }
          }
          frame := frame + 1;
          testbit := testbit + 1;
        }
        assert bits.blocks[..][index := locked] == bits.blocks[..];
      }
    }
  }

  lemma LowFull(blocks: seq<Word>)
    requires 32 * |blocks| == FRAMES && AllTaken(blocks, 0, LOW_FRAMES)
    ensures blocks[0] == Full()
  {
    forall k: Bit | true
      ensures k in blocks[0]
    {
      assert Taken(blocks, k);
    }
  }

  lemma FirstApart(words: Words, dir: Frame, blocks: seq<Word>, base: nat)
    requires Sized(words) && 32 * |blocks| == FRAMES && AllTaken(blocks, 0, LOW_FRAMES)
    requires base > 0 && base % FRAME_BYTES == 0 && BitmapEnd(base) <= LOW_FRAMES && dir == base / FRAME_BYTES + 1
    requires FirstTables(words, dir, base)
    ensures Apart(words, dir, blocks)
  {
    assert 0 < base / FRAME_BYTES < dir < LOW_FRAMES;
    assert Taken(blocks, base / FRAME_BYTES) && Taken(blocks, dir) && Taken(blocks, 0);
  }

  lemma BitmapLow(base: nat)
    requires base % FRAME_BYTES == 0 && BitmapEnd(base) <= LOW_FRAMES
    ensures BitmapStart(base) <= BitmapEnd(base) && FirstFreePage(base) <= TABLE && base / FRAME_BYTES + 1 < FRAMES
  {
  }

  lemma NoneMapped(words: Words, dir: Frame)
    requires Sized(words)
    ensures Identity(words, dir, 0)
  {
  }

  lemma IdentityMore(was: Words, words: Words, dir: Frame, blocks: seq<Word>, i: nat, table: Frame)
    requires Apart(was, dir, blocks) && i < TABLE && Pde(was, dir, 0) == Some(table)
    requires words == WithPage(was, dir, i, i, table) && Identity(was, dir, i)
    ensures Sized(words) && Identity(words, dir, i + 1)
    ensures forall d :: 0 <= d < TABLE ==> Pde(words, dir, d) == Pde(was, dir, d)
  {
    ApartMore(was, dir, blocks, i, i, table);
    ThePage(was, words, dir, i, i, table);
    forall v | 0 <= v < i
      ensures Translate(words, dir, v) == Some(v)
    {
      assert Translate(was, dir, v) == Some(v);
      OtherPage(was, words, dir, blocks, i, i, table, v);
      WordsApart(table, v, table, i);
    }
  }

  lemma BelowFull(w: Word, k: nat)
    requires k <= 32 && forall j: Bit :: j < k ==> j in w
    ensures k == 32 ==> w == Full()
  {
    if k == 32 { assert w == Full(); }
  }

  lemma TablesNone(was: Words, dir: Frame, page: nat)
    requires Sized(was)
    ensures TablesFound(was, was, dir, page, 0)
  {
    assert Missing(was, dir, page, 0) == {} && NewTables(was, was, dir) == {};
  }

  lemma MappedApart(was: Words, words: Words, dir: Frame, before: seq<Word>, after: seq<Word>, page: nat,
                    frames: seq<nat>, tables: seq<nat>)
    requires Mapped(was, words, dir, before, after, page, frames, tables)
    ensures Apart(words, dir, after)
  {
  }

  /** Taking a block takes nothing away from what is in use. */
  lemma HeldApart(words: Words, dir: Frame, blocks: seq<Word>, index: nat)
    requires Apart(words, dir, blocks) && index < |blocks|
    ensures Apart(words, dir, blocks[index := Full()])
  {
    forall f | 0 <= f < FRAMES && Taken(blocks, f)
      ensures Taken(blocks[index := Full()], f)
    {
    }
  }

  lemma NoRoom(was: Words, words: Words, dir: Frame, before: seq<Word>, blocks: seq<Word>, page: nat,
               frames: seq<nat>, tables: seq<nat>, pages: nat, start: nat)
    requires Mapped(was, words, dir, before, blocks, page, frames, tables) && Mappable(page, pages) && |frames| < pages
    requires start < STARTS < |blocks| && FullBlocks(blocks, start, |blocks|)
    ensures Sized(was) && !RoomForPages(was, dir, before, page, pages, start) && !Room(was, dir, before, page, pages)
  {
    if RoomForPages(was, dir, before, page, pages, start) {
      RoomForPage(was, words, dir, before, blocks, page, frames, tables, pages, start);
    }
    if Room(was, dir, before, page, pages) {
      assert |before| == |blocks|;
      RoomIsEnough(was, dir, before, page, pages, start);
    }
  }

  lemma TablesFoundMore(was: Words, words: Words, words': Words, dir: Frame, page: nat, k: nat, table: Frame)
    requires Directories(was, words, dir, page, k) && Sized(words') && Mappable(page, k + 1)
    requires TablesFound(was, words, dir, page, k) && OneTable(words, words', dir, Directory(page + k), table)
    requires Pde(words, dir, Directory(page + k)).None? ==> table != 0
    ensures TablesFound(was, words', dir, page, k + 1)
  {
    var d := Directory(page + k);
    forall e | 0 <= e < TABLE
      ensures e in Missing(was, dir, page, k + 1)
         <==> e in Missing(was, dir, page, k) || (e == d && Pde(was, dir, d).None?)
    {
      NeededMore(e, page, k);
    }
  }

  lemma FreeBit(blocks: seq<Word>, index: nat, bit: Bit)
    requires index < |blocks| && bit !in blocks[index]
    ensures 32 * index + bit < 32 * |blocks| && !Taken(blocks, 32 * index + bit)
  {
    assert (32 * index + bit) / 32 == index && (32 * index + bit) % 32 == bit;
  }

  /** A frame that is free while the block is held is free, and not of that block. */
  lemma HeldElsewhere(blocks: seq<Word>, index: nat, f: nat)
    requires index < |blocks|
    ensures f < 32 * |blocks| && !Taken(blocks[index := Full()], f) ==> !Taken(blocks, f) && f / 32 != index
  {
  }

  /** The bitmap once the held block is given back with one bit more. */
  lemma SameBitmap(truth: seq<Word>, after: seq<Word>, index: nat, bit: Bit, missing: bool, table: Frame, f: Frame,
                   start: nat)
    requires 32 * |truth| == FRAMES && index < |truth| && f == 32 * index + bit
    requires missing ==> FrameTaken(truth[index := Full()], after, table, start)
    requires !missing ==> after == truth[index := Full()]
    requires missing && table == 0 ==> FullBlocks(truth[index := Full()], start, |truth|)
    requires missing && table != 0 ==> !FullBlocks(truth[index := Full()], start, |truth|)
    ensures |after| == |truth| && after[index] == Full()
    ensures forall i :: 0 <= i < |truth| && truth[i] == Full() ==> after[i] == Full()
    ensures after[index := truth[index] + {bit}] == WithFrames(truth, missing, table, f)
  {
    assert f / 32 == index && f % 32 == bit;
    if missing && table != 0 {
      HeldElsewhere(truth, index, table);
      assert table / 32 != index;
      FullAndMore(truth[table / 32], table % 32);
    }
  }

  lemma FullAndMore(w: Word, k: Bit)
    ensures w == Full() ==> w + {k} == Full()
  {
  }

  /** Blocks that were full before the call are full also for its searches for tables. */
  lemma StillNoTable(before: seq<Word>, truth: seq<Word>, given: seq<nat>, prand: nat -> nat, n: nat, draw: nat,
                     index: nat)
    requires Given(before, truth, given) && NoTableAround(before, prand, n) && 0 < draw <= n && index < |truth|
    ensures FullBlocks(truth[index := Full()], prand(draw) % STARTS, |truth|)
  {
    var start := prand(draw) % STARTS;
    assert FullBlocks(before, start, |before|);
    var held := truth[index := Full()];
    forall i | start <= i < |truth|
      ensures held[i] == Full()
    {
      GivenStaysFull(before, truth, given, i);
    }
  }

  lemma HeldFirst(truth: seq<Word>, index: nat)
    requires 0 < index < |truth| && truth[0] == Full()
    ensures truth[index := Full()][0] == Full()
  {
  }

  lemma TakenFree(before: seq<Word>, after: seq<Word>, f: nat, start: nat)
    requires FrameTaken(before, after, f, start) && f != 0
    ensures f < 32 * |before| && !Taken(before, f)
  {
  }

  lemma MappableTo(page: nat, k: nat, n: nat)
    requires Mappable(page, n) && k < n
    ensures Mappable(page, k + 1) && Mappable(page + k, 1) && Directory(page + k) < TABLE
  {
  }

  lemma FullTo(blocks: seq<Word>, from: nat, to: nat)
    requires to <= |blocks| && FullBlocks(blocks, from, to)
    ensures forall i :: from <= i < to ==> blocks[i] == Full()
  {
  }

  lemma AlsoFull(truth: seq<Word>, after: seq<Word>, from: nat, to: nat)
    requires |after| == |truth| && to <= |truth| && forall i :: from <= i < to ==> truth[i] == Full()
    requires forall i :: 0 <= i < |truth| && truth[i] == Full() ==> after[i] == Full()
    ensures FullBlocks(after, from, to)
  {
  }

  lemma NoMoreTables(missing: bool, table: Frame)
    requires missing ==> table == 0
    ensures MoreTables([], missing, table) == []
  {
  }

  /** The frame just looked at goes to the next page, possibly after a table was found for it. */
  lemma MapOne(was: Words, words: Words, dir: Frame, before: seq<Word>, truth: seq<Word>, after: seq<Word>, page: nat,
               frames: seq<nat>, tables: seq<nat>, n: nat, index: nat, bit: Bit, start: nat, prand: nat -> nat,
               draw: nat, words': Words, missing: bool, table: Frame) returns (tables': seq<nat>)
    requires Mapped(was, words, dir, before, truth, page, frames, tables) && Mappable(page, n) && |frames| < n
    requires Sized(words) && Sized(words') && |truth| * 32 == FRAMES
    requires 0 < index < |truth| && bit !in truth[index] && start < STARTS <= |truth| && truth[0] == Full()
    requires 0 < draw <= n && FullBlocks(truth, start, index)
    requires missing <==> Pde(words, dir, Directory(page + |frames|)).None?
    requires words' == WithPage(words, dir, page + |frames|, 32 * index + bit, table)
    requires !missing ==> after == truth[index := Full()]
    requires missing ==> FrameTaken(truth[index := Full()], after, table, prand(draw) % STARTS)
    requires Room(was, dir, before, page, n) ==> TablesFound(was, words, dir, page, |frames|)
    requires NoTableAround(before, prand, n) ==> tables == []
    ensures |after| == |truth| && after[index] == Full() && FullBlocks(after, start, index)
    ensures Mapped(was, words', dir, before, after[index := truth[index] + {bit}], page, frames + [32 * index + bit],
                   tables')
    ensures Room(was, dir, before, page, n) ==> TablesFound(was, words', dir, page, |frames| + 1)
    ensures NoTableAround(before, prand, n) ==> tables' == []
  {
    hide *;
    var p, f, held := page + |frames|, 32 * index + bit, truth[index := Full()];
    tables' := MoreTables(tables, missing, table);
    MappedParts(was, words, dir, before, truth, page, frames, tables);
    FreeBit(truth, index, bit);
    FullTo(truth, start, index);
    if missing {
      HeldFirst(truth, index);
      FoundIff(held, after, table, prand(draw) % STARTS);
      if table != 0 { TakenFree(held, after, table, prand(draw) % STARTS); }
      HeldElsewhere(truth, index, table);
    }
    MappableTo(page, |frames|, n);
    MappedMore(was, words, dir, before, truth, page, frames, tables, f, table);
    SameBitmap(truth, after, index, bit, missing, table, f, prand(draw) % STARTS);
    AlsoFull(truth, after, start, index);
    assert Mapped(was, words', dir, before, after[index := truth[index] + {bit}], page, frames + [f], tables');
    if Room(was, dir, before, page, n) {
      if missing {
        RoomForTable(was, words, dir, before, truth, page, frames, tables, n, prand(draw) % STARTS, index);
      }
      ApartMore(words, dir, truth, p, f, table);
      TablesFoundMore(was, words, words', dir, page, |frames|, table);
    }
    if NoTableAround(before, prand, n) {
      if missing { StillNoTable(before, truth, tables + frames, prand, n, draw, index); }
      NoMoreTables(missing, table);
    }
  }

  // ---------------------------------------------------------------- success without tables

  function AfterHundred(i: nat): Word {
    if 32 <= i < 100 then {} else Full()
  }

  /** A bitmap whose free frames are those of blocks 32 to 99. */
  function FewBlocksFree(): seq<Word> {
    seq(FRAMES / 32, i requires 0 <= i => AfterHundred(i))
  }

  lemma FewBlocksRoom(words: Words, dir: Frame)
    requires Sized(words)
    ensures RoomForPages(words, dir, FewBlocksFree(), 2048, 2048, 32)
    ensures FullBlocks(FewBlocksFree(), 100, |FewBlocksFree()|)
  {
    var blocks, row := FewBlocksFree(), Row(1024, 2176);
    forall f | f in row
      ensures f in FreeFrom(blocks, 32)
    {
      assert blocks[f / 32] == AfterHundred(f / 32) == {};
    }
    RowCount(1024, 2176);
    Subset(row, FreeFrom(blocks, 32));
    Subset(Missing(words, dir, 2048, 2048), {2, 3});
  }

  /** What a call leaves that mapped two tables' worth of pages and found neither table. */
  lemma BothTablesZero(was: Words, words: Words, dir: Frame, before: seq<Word>, after: seq<Word>, frames: seq<nat>,
                       i: nat)
    requires Mapped(was, words, dir, before, after, 2048, frames, []) && |frames| == 2048 && i < 1024
    requires Pde(was, dir, 2).None? && Pde(was, dir, 3).None?
    ensures Pde(words, dir, 2) == Some(0) == Pde(words, dir, 3)
    ensures Translate(words, dir, 2048 + i) == Translate(words, dir, 3072 + i)
    ensures frames[i] != frames[1024 + i]
  {
    assert |NewTables(was, words, dir)| == 0;
    assert NeededFor(2, 2048, 2048) && NeededFor(3, 2048, 2048);
    assert 2 !in NewTables(was, words, dir) && 3 !in NewTables(was, words, dir);
    assert Directory(2048 + i) == 2 && Directory(3072 + i) == 3;
    SharedIff(was, words, dir, before, after, 2048, frames, [], i, 1024 + i);
    DifferentFrames(before, after, [], frames, i, 1024 + i);
  }

  /**
    A call that succeeds although neither of the two tables it needs is found: both directories then
    hold frame 0, and the pages of the second take over the entries of the first.
   */
  method SucceedsWithoutTables(pages: PageAllocator, prand: nat -> nat) returns (ok: bool)
    requires pages.Valid() && pages.bits.blocks[..] == FewBlocksFree()
    requires Pde(pages.words[..], pages.dir, 2).None? && Pde(pages.words[..], pages.dir, 3).None?
    requires prand(0) % STARTS == 32 && forall k :: 0 < k <= 2048 ==> prand(k) % STARTS == 100
    modifies pages.bits.blocks, pages.words
    ensures ok
    ensures Pde(pages.words[..], pages.dir, 2) == Some(0) == Pde(pages.words[..], pages.dir, 3)
    ensures forall i :: 0 <= i < 1024 ==> Twins(pages.words[..], pages.dir, i)
  {
    ghost var was, before := pages.words[..], pages.bits.blocks[..];
    FewBlocksRoom(was, pages.dir);
    ghost var frames, tables;
    ok, frames, tables := pages.VirtAllocPages(2048, 2048, prand);
    forall i | 0 <= i < 1024
      ensures Twins(pages.words[..], pages.dir, i)
    {
      BothTablesZero(was, pages.words[..], pages.dir, before, pages.bits.blocks[..], frames, i);
    }
    BothTablesZero(was, pages.words[..], pages.dir, before, pages.bits.blocks[..], frames, 0);
  }

  predicate Twins(words: Words, dir: Frame, i: nat)
    requires Sized(words) && i < 1024
  {
    Translate(words, dir, 2048 + i) == Translate(words, dir, 3072 + i)
  }
}
