/**
  The page tables of src/system/memory.cpp, as words of physical memory: the entry of a page is
  found through the frame in its directory entry, so that directories which hold the same frame
  share their entries.
 */
module PageTables {
  import opened BitOps
  import opened BitAllocation
  import opened FrameLists
  import opened Options

  const FRAMES := 0x10_0000
  const TABLE := 1024

  type Frame = f: nat | f < FRAMES

  /** Word k of frame f is number 1024 f + k; as an entry it is absent, or holds a frame. */
  type Words = seq<Option<Frame>>

  /** The directory entry through which the directory maps itself, and with it all tables. */
  const PDIR_SELF_INDEX := 1

  /** The highest block number at which a search for free frames can start, plus one. */
  const STARTS := 256

  predicate Sized(words: Words) {
    |words| == FRAMES * TABLE
  }

  function WordOf(frame: Frame, k: nat): (w: nat)
    requires k < TABLE
    ensures w < FRAMES * TABLE
  {
    TABLE * frame + k
  }

  function Directory(page: nat): nat {
    page / TABLE
  }

  function Pde(words: Words, dir: Frame, d: nat): Option<Frame>
    requires Sized(words) && d < TABLE
  {
    words[WordOf(dir, d)]
  }

  /** The word that holds the entry of a page. */
  function SlotOf(words: Words, dir: Frame, page: nat): (w: nat)
    requires Sized(words) && page < FRAMES && Pde(words, dir, Directory(page)).Some?
    ensures w < FRAMES * TABLE
  {
    WordOf(Pde(words, dir, Directory(page)).value, page % TABLE)
  }

  /** The frame a page is mapped to. */
  function Translate(words: Words, dir: Frame, page: nat): Option<Frame>
    requires Sized(words) && page < FRAMES
  {
    if Pde(words, dir, Directory(page)).None? then None else words[SlotOf(words, dir, page)]
  }

  /** The two-level walk of the processor, in numbers of words of physical memory. */
  lemma WalksTwoLevels(words: Words, dir: Frame, page: nat, f: Frame)
    requires Sized(words) && page < FRAMES
    ensures Translate(words, dir, page) == Some(f) <==>
      exists table: Frame ::
        words[1024 * dir + page / 1024] == Some(table) && words[1024 * table + page % 1024] == Some(f)
  {
    var pde := words[1024 * dir + page / 1024];
    if pde.Some? {
      assert Translate(words, dir, page) == words[1024 * pde.value + page % 1024];
    }
  }

  /** Pages whose entries are not the page directory itself. */
  predicate Mappable(page: nat, pages: nat) {
    page + pages <= FRAMES && (page + pages <= TABLE || 2 * TABLE <= page)
  }

  /**
    The directory's tables are frames in use, pairwise different except that several may be
    frame 0, which stands for a table that was not found.
   */
  predicate Apart(words: Words, dir: Frame, blocks: seq<Word>) {
    && Sized(words) && 32 * |blocks| == FRAMES
    && dir != 0 && Taken(blocks, 0)
    && Pde(words, dir, PDIR_SELF_INDEX) == Some(dir)
    && (forall d :: 0 <= d < TABLE && Pde(words, dir, d).Some? ==> Taken(blocks, Pde(words, dir, d).value))
    && (forall d, e :: 0 <= d < e < TABLE && Pde(words, dir, d).Some? && Pde(words, dir, d) == Pde(words, dir, e) ==>
          Pde(words, dir, d) == Some(0))
  }

  /** Two words are the same only at the same place of the same frame. */
  lemma WordsApart(f: Frame, k: nat, g: Frame, l: nat)
    requires k < TABLE && l < TABLE
    ensures WordOf(f, k) == WordOf(g, l) <==> f == g && k == l
  {
  }

  // ---------------------------------------------------------------- one page

  /** The words after mapping a page, `table` being what was found where a table was missing. */
  function WithTable(words: Words, dir: Frame, page: nat, table: Frame): (w: Words)
    requires Sized(words) && Mappable(page, 1)
    ensures Sized(w)
  {
    var d := Directory(page);
    if Pde(words, dir, d).None? then words[WordOf(dir, d) := Some(table)] else words
  }

  function WithPage(words: Words, dir: Frame, page: nat, f: Frame, table: Frame): (w: Words)
    requires Sized(words) && Mappable(page, 1)
    ensures Sized(w)
  {
    var w := WithTable(words, dir, page, table);
    w[SlotOf(w, dir, page) := Some(f)]
  }

  /** What finding a frame does to the bitmap: it is the first clear bit from block `start` on, or 0. */
  predicate FrameTaken(before: seq<Word>, after: seq<Word>, f: nat, start: nat) {
    if FullBlocks(before, start, |before|) then f == 0 && after == before
    else
      && f == NextClear(before, 32 * start, 32 * |before|)
      && f < 32 * |before| && !Taken(before, f) && after == Marked(before, f)
  }

  /** A frame is found exactly when not all blocks from the start of the search on are full. */
  lemma FoundIff(before: seq<Word>, after: seq<Word>, f: nat, start: nat)
    requires |before| > 0 && before[0] == Full() && FrameTaken(before, after, f, start)
    ensures f != 0 <==> !FullBlocks(before, start, |before|)
    ensures f != 0 ==> 32 * start <= f < 32 * |before| && AllTaken(before, 32 * start, f)
  {
    if !FullBlocks(before, start, |before|) {
      NextClearFound(before, 32 * start, 32 * |before|);
      assert Taken(before, 0);
      NextClearFirst(before, 32 * start, 32 * |before|);
    }
  }

  lemma {:induction false} NextClearFirst(blocks: seq<Word>, from: nat, limit: nat)
    requires limit <= 32 * |blocks| && NextClear(blocks, from, limit) != -1
    ensures from <= NextClear(blocks, from, limit) < limit && AllTaken(blocks, from, NextClear(blocks, from, limit))
    decreases limit - from
  {
    if Taken(blocks, from) { NextClearFirst(blocks, from + 1, limit); }
  }

  /** Finding a table, or frame 0, keeps the tables apart. */
  lemma ApartTable(words: Words, dir: Frame, blocks: seq<Word>, after: seq<Word>, page: nat, table: Frame)
    requires Apart(words, dir, blocks) && Mappable(page, 1) && |after| == |blocks|
    requires Pde(words, dir, Directory(page)).None?
    requires table != 0 ==> !Taken(blocks, table) && Taken(after, table)
    requires forall f :: 0 <= f < FRAMES && Taken(blocks, f) ==> Taken(after, f)
    ensures Apart(WithTable(words, dir, page, table), dir, after)
    ensures forall d :: 0 <= d < TABLE && d != Directory(page) ==>
      Pde(WithTable(words, dir, page, table), dir, d) == Pde(words, dir, d)
  {
    var w, d := WithTable(words, dir, page, table), Directory(page);
    forall e | 0 <= e < TABLE && e != d
      ensures Pde(w, dir, e) == Pde(words, dir, e)
    {
      WordsApart(dir, d, dir, e);
    }
    assert Pde(w, dir, d) == Some(table);
  }

  /** Writing a page's entry changes no directory entry. */
  lemma ApartPage(words: Words, dir: Frame, blocks: seq<Word>, page: nat, f: Frame)
    requires Apart(words, dir, blocks) && Mappable(page, 1) && Pde(words, dir, Directory(page)).Some?
    ensures Apart(words[SlotOf(words, dir, page) := Some(f)], dir, blocks)
    ensures forall d :: 0 <= d < TABLE ==>
      Pde(words[SlotOf(words, dir, page) := Some(f)], dir, d) == Pde(words, dir, d)
  {
    var w, table := words[SlotOf(words, dir, page) := Some(f)], Pde(words, dir, Directory(page)).value;
    assert table != dir;
    forall d | 0 <= d < TABLE
      ensures Pde(w, dir, d) == Pde(words, dir, d)
    {
      WordsApart(table, page % TABLE, dir, d);
    }
  }

  // ---------------------------------------------------------------- progress of a call

  predicate NeededFor(d: nat, page: nat, pages: nat) {
    pages > 0 && Directory(page) <= d <= Directory(page + pages - 1)
  }

  /** Directories without a table among those needed for the pages. */
  function Missing(words: Words, dir: Frame, page: nat, pages: nat): set<nat>
    requires Sized(words)
  {
    set d | 0 <= d < TABLE && Pde(words, dir, d).None? && NeededFor(d, page, pages)
  }

  /** Directories a call gave a table of their own. */
  function NewTables(was: Words, words: Words, dir: Frame): set<nat>
    requires Sized(was) && Sized(words)
  {
    set d | 0 <= d < TABLE && Pde(was, dir, d).None? && Pde(words, dir, d).Some? && Pde(words, dir, d) != Some(0)
  }

  /** Only missing directories among those needed changed; all those needed are present. */
  predicate Directories(was: Words, words: Words, dir: Frame, page: nat, pages: nat) {
    && Sized(was) && Sized(words)
    && (forall d :: 0 <= d < TABLE && Pde(words, dir, d) != Pde(was, dir, d) ==> d in Missing(was, dir, page, pages))
    && (forall d :: 0 <= d < TABLE && NeededFor(d, page, pages) ==> Pde(words, dir, d).Some?)
  }

  /** Word `w` is the entry of one of the pages. */
  predicate IsSlot(words: Words, dir: Frame, page: nat, i: nat, w: nat)
    requires Sized(words)
  {
    page + i < FRAMES && Pde(words, dir, Directory(page + i)).Some? && SlotOf(words, dir, page + i) == w
  }

  /** No page after number i, up to the `pages`-th, has its entry in word `w`. */
  predicate Last(words: Words, dir: Frame, page: nat, i: nat, pages: nat, w: nat)
    requires Sized(words)
  {
    forall j :: i < j < pages ==> !IsSlot(words, dir, page, j, w)
  }

  /** The entry of page number i holds frame `f`, unless a later page has the same word. */
  predicate EntryOk(words: Words, dir: Frame, page: nat, i: nat, f: nat, pages: nat)
    requires Sized(words)
  {
    && page + i < FRAMES && f < FRAMES && Pde(words, dir, Directory(page + i)).Some?
    && (Last(words, dir, page, i, pages, SlotOf(words, dir, page + i)) ==> Translate(words, dir, page + i) == Some(f))
  }

  predicate Entered(words: Words, dir: Frame, page: nat, frames: seq<nat>)
    requires Sized(words)
  {
    forall i :: 0 <= i < |frames| ==> EntryOk(words, dir, page, i, frames[i], |frames|)
  }

  /** Nothing but directory entries and the pages' own words changed. */
  predicate OnlySlots(was: Words, words: Words, dir: Frame, page: nat, pages: nat)
    requires Sized(was) && Sized(words)
  {
    forall w :: 0 <= w < FRAMES * TABLE && words[w] != was[w] ==>
      Directory(w) == dir || exists i :: 0 <= i < pages && IsSlot(words, dir, page, i, w)
  }

  /**
    The first pages from `page` on were given `frames`, and `tables` went to directories that
    had no table. All those frames are different and were free, and no other frame was taken.
   */
  ghost predicate Mapped(was: Words, words: Words, dir: Frame, before: seq<Word>, after: seq<Word>, page: nat,
                         frames: seq<nat>, tables: seq<nat>)
  {
    && Directories(was, words, dir, page, |frames|)
    && Apart(words, dir, after)
    && Given(before, after, tables + frames)
    && |tables| == |NewTables(was, words, dir)|
    && (forall d :: d in NewTables(was, words, dir) ==> Pde(words, dir, d).value in tables)
    && Entered(words, dir, page, frames)
    && OnlySlots(was, words, dir, page, |frames|)
  }

  lemma NeededMore(d: nat, page: nat, pages: nat)
    ensures NeededFor(d, page, pages + 1) <==> NeededFor(d, page, pages) || d == Directory(page + pages)
  {
  }

  lemma MissingMore(words: Words, dir: Frame, page: nat, k: nat, n: nat)
    requires Sized(words) && k <= n
    ensures Missing(words, dir, page, k) <= Missing(words, dir, page, n)
  {
    forall d: nat | NeededFor(d, page, k)
      ensures NeededFor(d, page, n)
    {
    }
  }

  lemma MappedNone(was: Words, dir: Frame, before: seq<Word>, page: nat)
    requires Apart(was, dir, before)
    ensures Mapped(was, was, dir, before, before, page, [], [])
  {
    assert NewTables(was, was, dir) == {};
  }

  /** The bitmap after a page, and a table for it where one was found. */
  function WithFrames(after: seq<Word>, missing: bool, table: Frame, f: Frame): (r: seq<Word>)
    requires 32 * |after| == FRAMES
    ensures |r| == |after|
  {
    Marked(if missing && table != 0 then Marked(after, table) else after, f)
  }

  function MoreTables(tables: seq<nat>, missing: bool, table: Frame): seq<nat> {
    if missing && table != 0 then tables + [table] else tables
  }

  lemma GivenBoth(before: seq<Word>, after: seq<Word>, tables: seq<nat>, frames: seq<nat>, missing: bool, table: Frame,
                  f: Frame)
    requires 32 * |after| == FRAMES && Given(before, after, tables + frames) && !Taken(after, f)
    requires missing && table != 0 ==> !Taken(after, table) && table != f
    ensures Given(before, WithFrames(after, missing, table, f), MoreTables(tables, missing, table) + (frames + [f]))
  {
    if missing && table != 0 {
      GiveMore(before, after, tables + frames, table);
      MarkedTakes(after, table);
      GivenSwapped(before, Marked(after, table), tables, table, frames);
      GiveMore(before, Marked(after, table), tables + [table] + frames, f);
      assert tables + [table] + frames + [f] == tables + [table] + (frames + [f]);
    } else {
      GiveMore(before, after, tables + frames, f);
      assert tables + frames + [f] == tables + (frames + [f]);
    }
  }

  /** The directory entries after a page: at most the one it needs is new. */
  predicate OneTable(words: Words, words': Words, dir: Frame, d: nat, table: Frame)
    requires Sized(words) && Sized(words') && d < TABLE
  {
    forall e :: 0 <= e < TABLE ==>
      Pde(words', dir, e) == if e == d && Pde(words, dir, e).None? then Some(table) else Pde(words, dir, e)
  }

  lemma StillMissing(was: Words, words: Words, dir: Frame, page: nat, k: nat, d: nat)
    requires Directories(was, words, dir, page, k) && d < TABLE && Pde(words, dir, d).None?
    ensures Pde(was, dir, d).None?
  {
  }

  lemma DirectoriesMore(was: Words, words: Words, words': Words, dir: Frame, page: nat, k: nat, table: Frame)
    requires Directories(was, words, dir, page, k) && Sized(words') && Mappable(page, k + 1)
    requires OneTable(words, words', dir, Directory(page + k), table)
    ensures Directories(was, words', dir, page, k + 1)
  {
    forall d | 0 <= d < TABLE
      ensures Pde(words', dir, d) != Pde(was, dir, d) ==> d in Missing(was, dir, page, k + 1)
      ensures NeededFor(d, page, k + 1) ==> Pde(words', dir, d).Some?
    {
      NeededMore(d, page, k);
    }
  }

  lemma TablesMore(was: Words, words: Words, words': Words, dir: Frame, d: nat, tables: seq<nat>, table: Frame)
    requires Sized(was) && Sized(words) && Sized(words') && d < TABLE && OneTable(words, words', dir, d, table)
    requires Pde(words, dir, d).None? ==> Pde(was, dir, d).None?
    requires |tables| == |NewTables(was, words, dir)|
    requires forall e :: e in NewTables(was, words, dir) ==>
      e < TABLE && Pde(words, dir, e).Some? && Pde(words, dir, e).value in tables
    ensures var tables' := MoreTables(tables, Pde(words, dir, d).None?, table);
      && |tables'| == |NewTables(was, words', dir)|
      && forall e :: e in NewTables(was, words', dir) ==>
           e < TABLE && Pde(words', dir, e).Some? && Pde(words', dir, e).value in tables'
  {
    var added: set<nat> := if Pde(words, dir, d).None? && table != 0 then {d} else {};
    assert NewTables(was, words', dir) == NewTables(was, words, dir) + added;
    assert NewTables(was, words, dir) !! added;
  }

  /** A page whose directory has a table keeps its word. */
  lemma SameSlot(words: Words, words': Words, dir: Frame, page: nat)
    requires Sized(words) && Sized(words') && page < FRAMES
    requires Pde(words, dir, Directory(page)).Some?
    requires Pde(words', dir, Directory(page)) == Pde(words, dir, Directory(page))
    ensures SlotOf(words', dir, page) == SlotOf(words, dir, page)
  {
  }

  /** No mappable page has its entry in the directory. */
  lemma SlotOutsideDirectory(words: Words, dir: Frame, blocks: seq<Word>, page: nat)
    requires Apart(words, dir, blocks) && Mappable(page, 1) && Pde(words, dir, Directory(page)).Some?
    ensures forall d :: 0 <= d < TABLE ==> SlotOf(words, dir, page) != WordOf(dir, d)
    ensures Directory(SlotOf(words, dir, page)) != dir
  {
    var table := Pde(words, dir, Directory(page)).value;
    assert table != dir;
    forall d | 0 <= d < TABLE
      ensures SlotOf(words, dir, page) != WordOf(dir, d)
    {
      WordsApart(table, page % TABLE, dir, d);
    }
  }

  /** What mapping page `p` leaves of the entry of another page. */
  lemma OtherPage(words: Words, words': Words, dir: Frame, blocks: seq<Word>, p: nat, f: Frame, table: Frame, q: nat)
    requires Apart(words, dir, blocks) && Mappable(p, 1) && Mappable(q, 1)
    requires words' == WithPage(words, dir, p, f, table) && OneTable(words, words', dir, Directory(p), table)
    requires Pde(words, dir, Directory(q)).Some?
    ensures Pde(words', dir, Directory(q)).Some? && Pde(words', dir, Directory(p)).Some?
    ensures SlotOf(words', dir, q) == SlotOf(words, dir, q)
    ensures words'[SlotOf(words', dir, q)] ==
      if SlotOf(words', dir, q) == SlotOf(words', dir, p) then Some(f) else words[SlotOf(words', dir, q)]
  {
    ThePage(words, words', dir, p, f, table);
    SlotOutsideDirectory(words, dir, blocks, q);
  }

  lemma ThePage(words: Words, words': Words, dir: Frame, p: nat, f: Frame, table: Frame)
    requires Sized(words) && Sized(words') && Mappable(p, 1)
    requires words' == WithPage(words, dir, p, f, table) && OneTable(words, words', dir, Directory(p), table)
    ensures Pde(words', dir, Directory(p)).Some?
    ensures words'[SlotOf(words', dir, p)] == Some(f)
    ensures forall w :: 0 <= w < FRAMES * TABLE && w != SlotOf(words', dir, p) && w != WordOf(dir, Directory(p)) ==>
      words'[w] == words[w]
  {
    var w := WithTable(words, dir, p, table);
    assert Pde(w, dir, Directory(p)).Some?;
    assert SlotOf(words', dir, p) == SlotOf(w, dir, p);
  }

  lemma EnteredOne(words: Words, words': Words, dir: Frame, blocks: seq<Word>, page: nat, frames: seq<nat>, f: Frame,
                   table: Frame, i: nat)
    requires Apart(words, dir, blocks) && Mappable(page, |frames| + 1) && Entered(words, dir, page, frames)
    requires words' == WithPage(words, dir, page + |frames|, f, table)
    requires OneTable(words, words', dir, Directory(page + |frames|), table)
    requires i < |frames| && EntryOk(words, dir, page, i, frames[i], |frames|)
    ensures EntryOk(words', dir, page, i, frames[i], |frames| + 1)
  {
    hide Apart, WithPage, OneTable, Entered, Last, Pde, SlotOf, Directory;
    var k := |frames|;
    OtherPage(words, words', dir, blocks, page + k, f, table, page + i);
    var slot := SlotOf(words', dir, page + i);
    if Last(words', dir, page, i, k + 1, slot) {
      LastBefore(words, words', dir, blocks, page, frames, f, table, i, slot);
    }
  }

  lemma LastBefore(words: Words, words': Words, dir: Frame, blocks: seq<Word>, page: nat, frames: seq<nat>, f: Frame,
                   table: Frame, i: nat, slot: nat)
    requires Apart(words, dir, blocks) && Mappable(page, |frames| + 1) && Entered(words, dir, page, frames)
    requires words' == WithPage(words, dir, page + |frames|, f, table)
    requires OneTable(words, words', dir, Directory(page + |frames|), table)
    requires Last(words', dir, page, i, |frames| + 1, slot) && i < |frames|
    ensures Last(words, dir, page, i, |frames|, slot) && !IsSlot(words', dir, page, |frames|, slot)
  {
    var k := |frames|;
    assert !IsSlot(words', dir, page, k, slot);
    forall j | i < j < k
      ensures !IsSlot(words, dir, page, j, slot)
    {
      assert !IsSlot(words', dir, page, j, slot);
      assert EntryOk(words, dir, page, j, frames[j], k);
      OtherPage(words, words', dir, blocks, page + k, f, table, page + j);
    }
  }

  lemma EnteredMore(words: Words, words': Words, dir: Frame, blocks: seq<Word>, page: nat, frames: seq<nat>, f: Frame,
                    table: Frame)
    requires Apart(words, dir, blocks) && Mappable(page, |frames| + 1) && Entered(words, dir, page, frames)
    requires words' == WithPage(words, dir, page + |frames|, f, table)
    requires OneTable(words, words', dir, Directory(page + |frames|), table)
    ensures Entered(words', dir, page, frames + [f])
  {
    var all := frames + [f];
    ThePage(words, words', dir, page + |frames|, f, table);
    assert EntryOk(words', dir, page, |frames|, f, |all|);
    hide WithPage, Apart, OneTable, EntryOk;
    forall i | 0 <= i < |all|
      ensures EntryOk(words', dir, page, i, all[i], |all|)
    {
      if i < |frames| {
        EnteredOne(words, words', dir, blocks, page, frames, f, table, i);
      }
    }
  }

  lemma OnlySlotsMore(was: Words, words: Words, words': Words, dir: Frame, page: nat, frames: seq<nat>, f: Frame,
                      table: Frame)
    requires Sized(was) && Sized(words) && Sized(words')
    requires Mappable(page, |frames| + 1) && Entered(words, dir, page, frames)
    requires OnlySlots(was, words, dir, page, |frames|)
    requires words' == WithPage(words, dir, page + |frames|, f, table)
    requires OneTable(words, words', dir, Directory(page + |frames|), table)
    ensures OnlySlots(was, words', dir, page, |frames| + 1)
  {
    var k := |frames|;
    var p := page + k;
    ThePage(words, words', dir, p, f, table);
    assert p < FRAMES && Directory(p) < TABLE;
    assert IsSlot(words', dir, page, k, SlotOf(words', dir, p));
    assert Directory(WordOf(dir, Directory(p))) == dir;
    hide WithPage, SlotOf, IsSlot, Pde, OneTable, Directory, WordOf;
    forall w | 0 <= w < FRAMES * TABLE && words'[w] != was[w] && Directory(w) != dir
      ensures exists i :: 0 <= i < k + 1 && IsSlot(words', dir, page, i, w)
    {
      if words'[w] == words[w] {
        var i := ChangedSlot(was, words, dir, page, k, w);
        SlotKept(words, words', dir, page, i, w, Directory(p), table);
      }
    }
  }

  lemma SlotKept(words: Words, words': Words, dir: Frame, page: nat, i: nat, w: nat, d: nat, table: Frame)
    requires Sized(words) && Sized(words') && d < TABLE && OneTable(words, words', dir, d, table)
    requires IsSlot(words, dir, page, i, w)
    ensures IsSlot(words', dir, page, i, w)
  {
    assert Pde(words', dir, Directory(page + i)) == Pde(words, dir, Directory(page + i));
  }

  /** The tables stay apart, and at most the directory entry needed is new. */
  lemma ApartMore(words: Words, dir: Frame, after: seq<Word>, page: nat, f: Frame, table: Frame)
    requires Apart(words, dir, after) && Mappable(page, 1)
    requires Pde(words, dir, Directory(page)).None? && table != 0 ==> !Taken(after, table)
    ensures Apart(WithPage(words, dir, page, f, table), dir,
                  WithFrames(after, Pde(words, dir, Directory(page)).None?, table, f))
    ensures OneTable(words, WithPage(words, dir, page, f, table), dir, Directory(page), table)
  {
    var missing := Pde(words, dir, Directory(page)).None?;
    var w, words' := WithTable(words, dir, page, table), WithPage(words, dir, page, f, table);
    var after1 := if missing && table != 0 then Marked(after, table) else after;
    if missing && table != 0 { MarkedTakes(after, table); }
    MarkedTakes(after1, f);
    if missing { ApartTable(words, dir, after, after1, page, table); }
    ApartPage(w, dir, after1, page, f);
    assert Apart(words', dir, WithFrames(after, missing, table, f));
  }

  lemma MappedParts(was: Words, words: Words, dir: Frame, before: seq<Word>, after: seq<Word>, page: nat,
                    frames: seq<nat>, tables: seq<nat>)
    requires Mapped(was, words, dir, before, after, page, frames, tables)
    ensures Sized(was) && Sized(words) && Directories(was, words, dir, page, |frames|) && Apart(words, dir, after)
    ensures 32 * |after| == FRAMES && Given(before, after, tables + frames) && |tables| == |NewTables(was, words, dir)|
    ensures forall d :: d in NewTables(was, words, dir) ==>
      d < TABLE && Pde(words, dir, d).Some? && Pde(words, dir, d).value in tables
    ensures Entered(words, dir, page, frames) && OnlySlots(was, words, dir, page, |frames|)
  {
  }

  lemma MappedWhole(was: Words, words: Words, dir: Frame, before: seq<Word>, after: seq<Word>, page: nat,
                    frames: seq<nat>, tables: seq<nat>)
    requires Sized(was) && Sized(words) && Directories(was, words, dir, page, |frames|) && Apart(words, dir, after)
    requires Given(before, after, tables + frames) && |tables| == |NewTables(was, words, dir)|
    requires forall d :: d in NewTables(was, words, dir) ==>
      d < TABLE && Pde(words, dir, d).Some? && Pde(words, dir, d).value in tables
    requires Entered(words, dir, page, frames) && OnlySlots(was, words, dir, page, |frames|)
    ensures Mapped(was, words, dir, before, after, page, frames, tables)
  {
  }

  lemma MappableOne(page: nat, k: nat)
    requires Mappable(page, k + 1)
    ensures Mappable(page + k, 1) && page + k < FRAMES && Directory(page + k) < TABLE
  {
  }

  /** One more page mapped to a free frame; `table` is what was found if its table was missing. */
  lemma MappedMore(was: Words, words: Words, dir: Frame, before: seq<Word>, after: seq<Word>, page: nat,
                   frames: seq<nat>, tables: seq<nat>, f: Frame, table: Frame)
    requires Mapped(was, words, dir, before, after, page, frames, tables) && Mappable(page, |frames| + 1)
    requires !Taken(after, f)
    requires Pde(words, dir, Directory(page + |frames|)).None? && table != 0 ==> !Taken(after, table) && table != f
    ensures var missing := Pde(words, dir, Directory(page + |frames|)).None?;
      Mapped(was, WithPage(words, dir, page + |frames|, f, table), dir, before, WithFrames(after, missing, table, f),
             page, frames + [f], MoreTables(tables, missing, table))
  {
    hide *;
    MappedParts(was, words, dir, before, after, page, frames, tables);
    var p := page + |frames|;
    MappableOne(page, |frames|);
    var words' := WithPage(words, dir, p, f, table);
    var missing := Pde(words, dir, Directory(p)).None?;
    GivenBoth(before, after, tables, frames, missing, table, f);
    ApartMore(words, dir, after, p, f, table);
    if missing { StillMissing(was, words, dir, page, |frames|, Directory(p)); }
    DirectoriesMore(was, words, words', dir, page, |frames|, table);
    TablesMore(was, words, words', dir, Directory(p), tables, table);
    EnteredMore(words, words', dir, after, page, frames, f, table);
    OnlySlotsMore(was, words, words', dir, page, frames, f, table);
    MappedWhole(was, words', dir, before, WithFrames(after, missing, table, f), page, frames + [f],
                MoreTables(tables, missing, table));
  }

  // ---------------------------------------------------------------- what a call has done

  /** The frames in use grow by the pages mapped and the tables found for them, and by nothing else. */
  lemma MappedCount(was: Words, words: Words, dir: Frame, before: seq<Word>, after: seq<Word>, page: nat,
                    frames: seq<nat>, tables: seq<nat>, start: nat)
    requires Mapped(was, words, dir, before, after, page, frames, tables)
    ensures |UsedBits(after)| == |UsedBits(before)| + |frames| + |NewTables(was, words, dir)|
    ensures |FreeFrom(before, start)| <= |FreeFrom(after, start)| + |frames| + |NewTables(was, words, dir)|
    ensures NewTables(was, words, dir) <= Missing(was, dir, page, |frames|)
  {
    GivenCount(before, after, tables + frames, start);
  }

  /** The last of the pages that has the word of page number i. */
  lemma LastWith(words: Words, dir: Frame, page: nat, i: nat, pages: nat, w: nat) returns (m: nat)
    requires Sized(words) && i < pages && IsSlot(words, dir, page, i, w)
    ensures i <= m < pages && IsSlot(words, dir, page, m, w) && Last(words, dir, page, m, pages, w)
  {
    m := i;
    for j := i + 1 to pages
      invariant i <= m < j && IsSlot(words, dir, page, m, w)
      invariant forall l :: m < l < j ==> !IsSlot(words, dir, page, l, w)
    {
      if IsSlot(words, dir, page, j, w) { m := j; }
    }
  }

  lemma EntryOf(words: Words, dir: Frame, page: nat, frames: seq<nat>, i: nat)
    requires Sized(words) && Entered(words, dir, page, frames) && i < |frames|
    ensures page + i < FRAMES && Pde(words, dir, Directory(page + i)).Some?
    ensures IsSlot(words, dir, page, i, SlotOf(words, dir, page + i))
    ensures Translate(words, dir, page + i) == words[SlotOf(words, dir, page + i)]
    ensures Last(words, dir, page, i, |frames|, SlotOf(words, dir, page + i)) ==>
      Translate(words, dir, page + i) == Some(frames[i])
  {
    assert EntryOk(words, dir, page, i, frames[i], |frames|);
  }

  /** The number of the page whose frame page number i is mapped to: the last with its word. */
  lemma FrameAt(words: Words, dir: Frame, page: nat, frames: seq<nat>, i: nat) returns (m: nat)
    requires Sized(words) && Entered(words, dir, page, frames) && i < |frames|
    ensures i <= m < |frames| && page + m < FRAMES
    ensures Pde(words, dir, Directory(page + i)).Some? && Pde(words, dir, Directory(page + m)).Some?
    ensures SlotOf(words, dir, page + m) == SlotOf(words, dir, page + i)
    ensures Translate(words, dir, page + i) == Some(frames[m])
  {
    EntryOf(words, dir, page, frames, i);
    m := LastWith(words, dir, page, i, |frames|, SlotOf(words, dir, page + i));
    EntryOf(words, dir, page, frames, m);
  }

  /** Two pages have one entry when they are at the same place of two tables in frame 0. */
  predicate ShareEntry(words: Words, dir: Frame, p: nat, q: nat)
    requires Sized(words)
  {
    && p < FRAMES && q < FRAMES
    && Directory(p) != Directory(q) && p % TABLE == q % TABLE
    && Pde(words, dir, Directory(p)) == Some(0) == Pde(words, dir, Directory(q))
  }

  lemma SameSlotIff(words: Words, dir: Frame, blocks: seq<Word>, p: nat, q: nat)
    requires Apart(words, dir, blocks) && p < FRAMES && q < FRAMES && p != q
    requires Pde(words, dir, Directory(p)).Some? && Pde(words, dir, Directory(q)).Some?
    ensures SlotOf(words, dir, p) == SlotOf(words, dir, q) <==> ShareEntry(words, dir, p, q)
  {
    var f, g := Pde(words, dir, Directory(p)).value, Pde(words, dir, Directory(q)).value;
    WordsApart(f, p % TABLE, g, q % TABLE);
    assert Directory(p) == Directory(q) ==> p % TABLE != q % TABLE;
  }

  /** Page `p` shares its entry with none of the pages number `from` up to `to`. */
  predicate Unshared(words: Words, dir: Frame, p: nat, page: nat, from: nat, to: nat)
    requires Sized(words)
  {
    forall j :: from <= j < to ==> !ShareWith(words, dir, p, page, j)
  }

  predicate ShareWith(words: Words, dir: Frame, p: nat, page: nat, j: nat)
    requires Sized(words)
  {
    ShareEntry(words, dir, p, page + j)
  }

  /** Two pages mapped are mapped to one frame exactly when they are at one place of two tables in frame 0. */
  lemma SharedIff(was: Words, words: Words, dir: Frame, before: seq<Word>, after: seq<Word>, page: nat,
                  frames: seq<nat>, tables: seq<nat>, i: nat, j: nat)
    requires Mapped(was, words, dir, before, after, page, frames, tables) && i < j < |frames|
    ensures page + j < FRAMES && Translate(words, dir, page + i).Some?
    ensures Translate(words, dir, page + i) == Translate(words, dir, page + j) <==>
      ShareEntry(words, dir, page + i, page + j)
  {
    hide *;
    MappedParts(was, words, dir, before, after, page, frames, tables);
    EntryOf(words, dir, page, frames, i);
    EntryOf(words, dir, page, frames, j);
    SameSlotIff(words, dir, after, page + i, page + j);
    var x := FrameAt(words, dir, page, frames, i);
    var y := FrameAt(words, dir, page, frames, j);
    DifferentFrames(before, after, tables, frames, x, y);
  }

  lemma DifferentFrames(before: seq<Word>, after: seq<Word>, tables: seq<nat>, frames: seq<nat>, x: nat, y: nat)
    requires Given(before, after, tables + frames) && x < |frames| && y < |frames|
    ensures frames[x] == frames[y] ==> x == y
  {
    var all := tables + frames;
    assert all[|tables| + x] == frames[x] && all[|tables| + y] == frames[y];
  }

  /** A page that shares its entry with no later one is mapped to the frame it was given. */
  lemma OwnFrame(was: Words, words: Words, dir: Frame, before: seq<Word>, after: seq<Word>, page: nat,
                 frames: seq<nat>, tables: seq<nat>, i: nat)
    requires Mapped(was, words, dir, before, after, page, frames, tables) && i < |frames|
    ensures page + i < FRAMES
    ensures Unshared(words, dir, page + i, page, i + 1, |frames|) ==> Translate(words, dir, page + i) == Some(frames[i])
  {
    hide *;
    MappedParts(was, words, dir, before, after, page, frames, tables);
    EntryOf(words, dir, page, frames, i);
    var m := FrameAt(words, dir, page, frames, i);
    if m != i {
      SameSlotIff(words, dir, after, page + i, page + m);
      Sharing(words, dir, page + i, page, i + 1, |frames|, m);
    }
  }

  lemma Sharing(words: Words, dir: Frame, p: nat, page: nat, from: nat, to: nat, j: nat)
    requires Sized(words) && from <= j < to && ShareEntry(words, dir, p, page + j)
    ensures !Unshared(words, dir, p, page, from, to)
  {
    assert ShareWith(words, dir, p, page, j);
  }

  /** Every needed directory that lacked a table got one of its own. */
  predicate TablesFound(was: Words, words: Words, dir: Frame, page: nat, pages: nat)
    requires Sized(was) && Sized(words)
  {
    NewTables(was, words, dir) == Missing(was, dir, page, pages)
  }

  lemma NoneZeroKept(was: Words, words: Words, dir: Frame, page: nat, pages: nat)
    requires Directories(was, words, dir, page, pages) && TablesFound(was, words, dir, page, pages)
    requires NoneZero(was, dir, page, pages)
    ensures NoneZero(words, dir, page, pages)
  {
    forall d | 0 <= d < TABLE && NeededFor(d, page, pages)
      ensures Pde(words, dir, d) != Some(0)
    {
      if Pde(words, dir, d) != Pde(was, dir, d) { assert d in NewTables(was, words, dir); }
    }
  }

  predicate NoneZero(words: Words, dir: Frame, page: nat, pages: nat)
    requires Sized(words)
  {
    forall d :: 0 <= d < TABLE && NeededFor(d, page, pages) ==> Pde(words, dir, d) != Some(0)
  }

  /** With no table in frame 0 the pages are mapped to pairwise different frames, all free before. */
  lemma AllDistinct(was: Words, words: Words, dir: Frame, before: seq<Word>, after: seq<Word>, page: nat,
                    frames: seq<nat>, tables: seq<nat>)
    requires Mapped(was, words, dir, before, after, page, frames, tables) && NoneZero(words, dir, page, |frames|)
    ensures forall i :: 0 <= i < |frames| ==> IsMappedTo(words, dir, page, i, frames[i])
    ensures NoneTwice(tables + frames)
  {
    forall i | 0 <= i < |frames|
      ensures IsMappedTo(words, dir, page, i, frames[i])
    {
      OwnFrame(was, words, dir, before, after, page, frames, tables, i);
      assert NeededFor(Directory(page + i), page, |frames|);
    }
  }

  predicate IsMappedTo(words: Words, dir: Frame, page: nat, i: nat, f: nat)
    requires Sized(words)
  {
    page + i < FRAMES && f < FRAMES && Translate(words, dir, page + i) == Some(f)
  }

  /**
    What a caller wants: the pages are mapped, in order, to pairwise different frames that were free
    before the call, none of them a table, and the frames in use grow by the pages and the tables
    that were missing.
   */
  ghost predicate AllMapped(was: Words, words: Words, dir: Frame, before: seq<Word>, after: seq<Word>, page: nat,
                            frames: seq<nat>, tables: seq<nat>)
    requires Sized(was) && Sized(words)
  {
    && NoneTwice(tables + frames)
    && (forall f :: f in tables + frames ==> f < 32 * |before| && !Taken(before, f))
    && (forall i :: 0 <= i < |frames| ==> IsMappedTo(words, dir, page, i, frames[i]))
    && |UsedBits(after)| == |UsedBits(before)| + |frames| + |Missing(was, dir, page, |frames|)|
  }

  /** If no needed directory had frame 0 before the call, and every missing table was found, all pages are mapped. */
  lemma AllFound(was: Words, words: Words, dir: Frame, before: seq<Word>, after: seq<Word>, page: nat,
                 frames: seq<nat>, tables: seq<nat>)
    requires Mapped(was, words, dir, before, after, page, frames, tables)
    requires TablesFound(was, words, dir, page, |frames|) && NoneZero(was, dir, page, |frames|)
    ensures AllMapped(was, words, dir, before, after, page, frames, tables)
  {
    NoneZeroKept(was, words, dir, page, |frames|);
    AllDistinct(was, words, dir, before, after, page, frames, tables);
    MappedCount(was, words, dir, before, after, page, frames, tables, 0);
  }

  /** Any other page with a table keeps its mapping, unless it shares its entry with one of those mapped. */
  lemma OthersKept(was: Words, words: Words, dir: Frame, before: seq<Word>, after: seq<Word>, page: nat,
                   frames: seq<nat>, tables: seq<nat>, p: nat)
    requires Mapped(was, words, dir, before, after, page, frames, tables)
    requires Mappable(p, 1) && Pde(was, dir, Directory(p)).Some? && !(page <= p < page + |frames|)
    ensures Unshared(words, dir, p, page, 0, |frames|) ==> Translate(words, dir, p) == Translate(was, dir, p)
  {
    hide *;
    MappablePage(p);
    MappedParts(was, words, dir, before, after, page, frames, tables);
    DirectoryKept(was, words, dir, page, |frames|, Directory(p));
    SameSlot(was, words, dir, p);
    SlotOutsideDirectory(words, dir, after, p);
    TranslateIs(was, dir, p);
    TranslateIs(words, dir, p);
    var slot := SlotOf(words, dir, p);
    if words[slot] != was[slot] {
      var i := ChangedSlot(was, words, dir, page, |frames|, slot);
      EntryOf(words, dir, page, frames, i);
      SlotIs(words, dir, page, i, slot);
      SameSlotIff(words, dir, after, p, page + i);
      Sharing(words, dir, p, page, 0, |frames|, i);
    }
  }

  lemma MappablePage(p: nat)
    requires Mappable(p, 1)
    ensures p < FRAMES && Directory(p) < TABLE
  {
  }

  lemma DirectoryKept(was: Words, words: Words, dir: Frame, page: nat, k: nat, d: nat)
    requires Directories(was, words, dir, page, k) && d < TABLE && Pde(was, dir, d).Some?
    ensures Pde(words, dir, d) == Pde(was, dir, d)
  {
  }

  lemma TranslateIs(words: Words, dir: Frame, p: nat)
    requires Sized(words) && p < FRAMES && Pde(words, dir, Directory(p)).Some?
    ensures Translate(words, dir, p) == words[SlotOf(words, dir, p)]
  {
  }

  lemma ChangedSlot(was: Words, words: Words, dir: Frame, page: nat, pages: nat, w: nat) returns (i: nat)
    requires Sized(was) && Sized(words) && OnlySlots(was, words, dir, page, pages)
    requires w < FRAMES * TABLE && words[w] != was[w] && Directory(w) != dir
    ensures i < pages && IsSlot(words, dir, page, i, w)
  {
    i :| 0 <= i < pages && IsSlot(words, dir, page, i, w);
  }

  lemma SlotIs(words: Words, dir: Frame, page: nat, i: nat, w: nat)
    requires Sized(words) && IsSlot(words, dir, page, i, w)
    ensures page + i < FRAMES && Pde(words, dir, Directory(page + i)).Some? && SlotOf(words, dir, page + i) == w
  {
  }

  // ---------------------------------------------------------------- enough room

  /**
    Enough frames are free for the pages and the missing tables, counting only those that every
    search passes, and a block's worth more: a table cannot come from the block that the call
    itself holds.
   */
  ghost predicate Room(words: Words, dir: Frame, blocks: seq<Word>, page: nat, pages: nat)
    requires Sized(words)
  {
    |FreeFrom(blocks, STARTS)| >= pages + |Missing(words, dir, page, pages)| + 31
  }

  /** Enough frames are free behind the start of the search, should every table come from there as well. */
  ghost predicate RoomForPages(words: Words, dir: Frame, blocks: seq<Word>, page: nat, pages: nat, start: nat)
    requires Sized(words)
  {
    |FreeFrom(blocks, start)| >= pages + |Missing(words, dir, page, pages)|
  }

  predicate InRow(f: nat, from: nat, n: nat) {
    from <= f < from + n
  }

  function Row(from: nat, n: nat): set<nat> {
    set f | from <= f < from + n && InRow(f, from, n)
  }

  lemma {:induction false} RowCount(from: nat, n: nat)
    ensures |Row(from, n)| == n
  {
    if n > 0 {
      RowCount(from, n - 1);
      assert Row(from, n) == Row(from, n - 1) + {from + n - 1};
    }
  }

  lemma FewFree(blocks: seq<Word>, start: nat, from: nat, index: nat)
    requires start <= from <= |blocks| && index < |blocks|
    requires FullBlocks(blocks[index := Full()], start, |blocks|)
    ensures |FreeFrom(blocks, from)| <= 32
    ensures blocks[index] == Full() ==> FreeFrom(blocks, from) == {}
  {
    forall f | f in FreeFrom(blocks, from)
      ensures f / 32 == index && !(blocks[index] == Full())
    {
      assert blocks[index := Full()][f / 32] == Full();
    }
    RowCount(32 * index, 32);
    assert FreeFrom(blocks, from) <= Row(32 * index, 32);
    Subset(FreeFrom(blocks, from), Row(32 * index, 32));
  }

  /** With enough room a table is found, although the block `index` is held. */
  lemma RoomForTable(was: Words, words: Words, dir: Frame, before: seq<Word>, truth: seq<Word>, page: nat,
                     frames: seq<nat>, tables: seq<nat>, n: nat, start: nat, index: nat)
    requires Mapped(was, words, dir, before, truth, page, frames, tables) && Mappable(page, n) && |frames| < n
    requires Room(was, dir, before, page, n)
    requires start <= STARTS <= |truth| && index < |truth|
    requires Pde(words, dir, Directory(page + |frames|)).None?
    ensures !FullBlocks(truth[index := Full()], start, |truth|)
  {
    if FullBlocks(truth[index := Full()], start, |truth|) {
      var d, new_ := Directory(page + |frames|), NewTables(was, words, dir);
      FewFree(truth, start, STARTS, index);
      MappedCount(was, words, dir, before, truth, page, frames, tables, STARTS);
      MissingMore(was, dir, page, |frames|, n);
      assert d !in new_ && d in Missing(was, dir, page, n);
      Subset(new_ + {d}, Missing(was, dir, page, n));
    }
  }

  /** With enough room behind the start, a block with a free frame is found as long as pages are left. */
  lemma RoomForPage(was: Words, words: Words, dir: Frame, before: seq<Word>, blocks: seq<Word>, page: nat,
                    frames: seq<nat>, tables: seq<nat>, n: nat, start: nat)
    requires Mapped(was, words, dir, before, blocks, page, frames, tables) && Mappable(page, n) && |frames| < n
    requires start < |blocks| && RoomForPages(was, dir, before, page, n, start)
    ensures !FullBlocks(blocks, start, |blocks|)
  {
    if FullBlocks(blocks, start, |blocks|) {
      assert blocks[start := Full()] == blocks;
      FewFree(blocks, start, start, start);
      MappedCount(was, words, dir, before, blocks, page, frames, tables, start);
      MissingMore(was, dir, page, |frames|, n);
      Subset(NewTables(was, words, dir), Missing(was, dir, page, n));
    }
  }

  lemma RoomIsEnough(words: Words, dir: Frame, blocks: seq<Word>, page: nat, pages: nat, start: nat)
    requires Sized(words) && start <= STARTS && Room(words, dir, blocks, page, pages)
    ensures RoomForPages(words, dir, blocks, page, pages, start)
  {
    Subset(FreeFrom(blocks, STARTS), FreeFrom(blocks, start));
  }
}
