/**
  `GUIWindowStack` (src/system/gui.cpp): the doubly linked list of sibling windows, kept in
  descending order of zindex by `insert`.
 */
module WindowStacks {
  import Scene

  class GUIWindow {
    const zindex: int        // no list operation changes it
    var next: GUIWindow?
    var prev: GUIWindow?

    constructor (zindex: int)
      ensures this.zindex == zindex && next == null && prev == null
    {
      this.zindex := zindex;
      next, prev := null, null;
    }
  }

  function Without<T>(s: seq<T>, i: nat): seq<T>
    requires i < |s|
  {
    s[..i] + s[i + 1..]
  }

  function With<T>(s: seq<T>, i: nat, x: T): seq<T>
    requires i <= |s|
  {
    s[..i] + [x] + s[i..]
  }

  /** Removing what was just put in at the same place restores the sequence. */
  lemma WithoutWith<T>(s: seq<T>, i: nat, x: T)
    requires i <= |s|
    ensures Without(With(s, i, x), i) == s
  {
    assert With(s, i, x)[..i] == s[..i] && With(s, i, x)[i + 1..] == s[i..];
  }

  /** Position `i` of a list, with null on either side of it. */
  ghost function NodeAt(s: seq<GUIWindow>, i: int): GUIWindow? {
    if 0 <= i < |s| then s[i] else null
  }

  ghost predicate Distinct(s: seq<GUIWindow>) {
    forall i, j :: 0 <= i < |s| && 0 <= j < |s| && i != j ==> s[i] != s[j]
  }

  /** The links agree with the list, except where `skipNext` and `skipPrev` say. */
  ghost predicate LinkedBut(s: seq<GUIWindow>, skipNext: int, skipPrev: int)
    reads s
  {
    && (forall i {:trigger s[i].next} :: 0 <= i < |s| && i != skipNext ==> s[i].next == NodeAt(s, i + 1))
    && (forall i {:trigger s[i].prev} :: 0 <= i < |s| && i != skipPrev ==> s[i].prev == NodeAt(s, i - 1))
  }

  ghost predicate Linked(s: seq<GUIWindow>)
    reads s
  {
    LinkedBut(s, -1, -1)
  }

  lemma DistinctFrom(s: seq<GUIWindow>, k: int)
    requires Distinct(s)
    ensures forall i :: 0 <= i < |s| && i != k ==> s[i] != NodeAt(s, k)
  {
  }

  /** Putting `w` in at `k` mends the list once its neighbours point to it. */
  lemma LinkIn(s: seq<GUIWindow>, k: nat, w: GUIWindow)
    requires Distinct(s) && k <= |s| && w !in s && LinkedBut(s, k - 1, k)
    requires w.next == NodeAt(s, k) && w.prev == NodeAt(s, k - 1)
    requires k > 0 ==> s[k - 1].next == w
    requires k < |s| ==> s[k].prev == w
    ensures Distinct(With(s, k, w)) && Linked(With(s, k, w))
  {
    var r := With(s, k, w);
    forall i | 0 <= i < |r| ensures r[i].next == NodeAt(r, i + 1) && r[i].prev == NodeAt(r, i - 1) {
      if i == k {
      } else if i < k {
        assert r[i] == s[i];
      } else {
        assert r[i] == s[i - 1];
      }
    }
  }

  /** Taking out position `k` mends the list once its neighbours point past it. */
  lemma LinkOut(s: seq<GUIWindow>, k: nat)
    requires Distinct(s) && k < |s|
    requires forall i {:trigger s[i].next} :: 0 <= i < |s| && i != k && i != k - 1 ==> s[i].next == NodeAt(s, i + 1)
    requires forall i {:trigger s[i].prev} :: 0 <= i < |s| && i != k && i != k + 1 ==> s[i].prev == NodeAt(s, i - 1)
    requires k > 0 ==> s[k - 1].next == NodeAt(s, k + 1)
    requires k + 1 < |s| ==> s[k + 1].prev == NodeAt(s, k - 1)
    ensures Distinct(Without(s, k)) && Linked(Without(s, k)) && s[k] !in Without(s, k)
  {
    var r := Without(s, k);
    forall i | 0 <= i < |r| ensures r[i].next == NodeAt(r, i + 1) && r[i].prev == NodeAt(r, i - 1) {
      assert r[i] == s[if i < k then i else i + 1];
    }
  }

  class GUIWindowStack {
    var top: GUIWindow?
    ghost var nodes: seq<GUIWindow>   // the list, from the top down
    ghost var since: map<GUIWindow, nat>   // history: when each window was last inserted
    ghost var clock: nat

    ghost predicate Valid()
      reads this, nodes
    {
      Distinct(nodes) && Linked(nodes) && top == NodeAt(nodes, 0)
    }

    constructor ()
      ensures Valid() && nodes == [] && Ordered()
    {
      top := null;
      nodes := [];
      since, clock := map[], 0;
    }

    /** Descending in zindex, and windows of equal zindex in the order of their insertion. */
    ghost predicate Ordered()
      reads this
    {
      Stable(nodes, since) && forall w :: w in since ==> since[w] < clock
    }

    /**
      In front of the first window that lies strictly lower: behind all windows of the same
      zindex.  The bound on the walk is never felt by a list the window table can hold.
     */
    method Insert(w: GUIWindow) returns (ghost at: nat)
      requires Valid() && w !in nodes && |nodes| <= Scene.MAX_WINDOW_LEVELS
      modifies this, nodes, w
      ensures Valid()
      ensures at <= |old(nodes)| && nodes == With(old(nodes), at, w)
      ensures forall i :: 0 <= i < at ==> old(nodes)[i].zindex >= w.zindex
      ensures at < |old(nodes)| ==> old(nodes)[at].zindex < w.zindex
      ensures since == old(since)[w := old(clock)] && clock == old(clock) + 1
      ensures old(Descending(nodes)) ==> Descending(nodes)
      ensures old(Ordered()) ==> Ordered()
    {
      at := Place(w);
      if old(Descending(nodes)) { StaysDescending(old(nodes), at, w); }
      if old(Ordered()) { StaysStable(old(nodes), at, w, since, clock); }
      since, clock := since[w := clock], clock + 1;
    }

    /** The statements of `insert`. */
    method Place(w: GUIWindow) returns (ghost at: nat)
      requires Valid() && w !in nodes && |nodes| <= Scene.MAX_WINDOW_LEVELS
      modifies this`top, this`nodes, nodes, w
      ensures Valid()
      ensures at <= |old(nodes)| && nodes == With(old(nodes), at, w)
      ensures forall i :: 0 <= i < at ==> old(nodes)[i].zindex >= w.zindex
      ensures at < |old(nodes)| ==> old(nodes)[at].zindex < w.zindex
    {
      if top == null || top.zindex < w.zindex {
        LinkFirst(w);
        return 0;
      }
      var p: GUIWindow := top;
      ghost var k := 0;
      var i := 0;
      while p.next != null && i < Scene.MAX_WINDOW_LEVELS
        invariant i == k < |nodes| && p == nodes[k]
        invariant forall j :: 0 <= j <= k ==> nodes[j].zindex >= w.zindex
        decreases Scene.MAX_WINDOW_LEVELS - i
        modifies {}
      {
        if p.next.zindex < w.zindex { break; }
        p := p.next;
        i, k := i + 1, k + 1;
      }
      LinkBehind(p, k, w);
      return k + 1;
    }

    /** The assignments of `insert` in front of the whole list. */
    method LinkFirst(w: GUIWindow)
      requires Valid() && w !in nodes
      modifies this`top, this`nodes, nodes, w
      ensures Valid() && nodes == With(old(nodes), 0, w)
    {
      ghost var s := nodes;
      if top != null { top.prev := w; }
      w.prev := null;
      w.next := top;
      top := w;
      assert LinkedBut(s, -1, 0);
      LinkIn(s, 0, w);
      nodes := With(s, 0, w);
    }

    /** The assignments of `insert` behind a window of the list. */
    method LinkBehind(p: GUIWindow, ghost k: nat, w: GUIWindow)
      requires Valid() && w !in nodes && k < |nodes| && p == nodes[k]
      modifies this`top, this`nodes, nodes, w
      ensures Valid() && nodes == With(old(nodes), k + 1, w)
    {
      ghost var s := nodes;
      DistinctFrom(s, k);
      DistinctFrom(s, k + 1);
      assert p.next == NodeAt(s, k + 1);
      hide Distinct, With;
      if p.next != null { p.next.prev := w; }
      assert LinkedBut(s, -1, k + 1);
      w.next := p.next;
      w.prev := p;
      assert LinkedBut(s, -1, k + 1);
      p.next := w;
      assert LinkedBut(s, k, k + 1);
      hide LinkedBut, Linked;
      LinkIn(s, k + 1, w);
      nodes := With(s, k + 1, w);
    }

    method Push(w: GUIWindow)
      requires Valid() && w !in nodes
      modifies this`top, this`nodes, nodes, w
      ensures Valid() && nodes == With(old(nodes), 0, w)
    {
      ghost var s := nodes;
      if top == null {
        w.prev := null;
        w.next := null;
        top := w;
      } else {
        w.next := top;
        w.prev := null;
        top.prev := w;
        top := w;
      }
      assert LinkedBut(s, -1, 0);
      LinkIn(s, 0, w);
      nodes := With(s, 0, w);
    }

    /** A window of the list is unlinked; one that is in no list is left as it is. */
    method Detach(w: GUIWindow, ghost at: nat)
      requires Valid()
      requires if w in nodes then at < |nodes| && nodes[at] == w else w.next == w.prev == null
      modifies this`top, this`nodes, nodes, w
      ensures Valid() && w !in nodes && w.next == w.prev == null
      ensures nodes == if w in old(nodes) then Without(old(nodes), at) else old(nodes)
      ensures old(Descending(nodes)) ==> Descending(nodes)
      ensures old(Ordered()) ==> Ordered()
    {
      hide Distinct, Linked, Without, Descending, Stable;
      if w in nodes { TakenOut(nodes, at, since); }
      Unlink(w, at);
    }

    /** The statements of `detach`. */
    method Unlink(w: GUIWindow, ghost at: nat)
      requires Valid()
      requires if w in nodes then at < |nodes| && nodes[at] == w else w.next == w.prev == null
      modifies this`top, this`nodes, nodes, w
      ensures Valid() && w !in nodes && w.next == w.prev == null
      ensures nodes == if w in old(nodes) then Without(old(nodes), at) else old(nodes)
    {
      ghost var s := nodes;
      ghost var k := if w in s then at else |s| + 1;
      DistinctFrom(s, k);
      DistinctFrom(s, k + 1);
      DistinctFrom(s, k - 1);
      assert w.next == NodeAt(s, k + 1) && w.prev == NodeAt(s, k - 1);
      hide Distinct, Without;
      if w == top { top := w.next; }
      if w.next != null { w.next.prev := w.prev; }
      assert LinkedBut(s, -1, k + 1);
      if w.prev != null { w.prev.next := w.next; }
      assert LinkedBut(s, k - 1, k + 1);
      w.next := null;
      w.prev := null;
      if w in s {
        LinkOut(s, at);
        nodes := Without(s, at);
      }
    }

    /** Detaching right after inserting restores the list. */
    method InsertThenDetach(w: GUIWindow)
      requires Valid() && w !in nodes && |nodes| <= Scene.MAX_WINDOW_LEVELS
      modifies this, nodes, w
      ensures Valid() && nodes == old(nodes)
    {
      hide Distinct, Linked;
      ghost var at := Insert(w);
      WithoutWith(old(nodes), at, w);
      Detach(w, at);
    }

    /** Raising a window of the list: `detach`, then `push`. */
    method Raise(w: GUIWindow, ghost at: nat)
      requires Valid() && at < |nodes| && nodes[at] == w
      modifies this`top, this`nodes, nodes
      ensures Valid() && nodes == With(Without(old(nodes), at), 0, w)
    {
      hide Distinct, Linked;
      Detach(w, at);
      Push(w);
    }
  }

  ghost predicate Descending(s: seq<GUIWindow>) {
    forall i, j :: 0 <= i < j < |s| ==> s[i].zindex >= s[j].zindex
  }

  /** The place `insert` chooses keeps descending order; taking a window out always does. */
  lemma StaysDescending(s: seq<GUIWindow>, at: nat, w: GUIWindow)
    requires Descending(s) && at <= |s|
    ensures Descending(With(s, at, w)) <==>
      (forall i :: 0 <= i < at ==> s[i].zindex >= w.zindex) && (forall i :: at <= i < |s| ==> w.zindex >= s[i].zindex)
    ensures at < |s| ==> Descending(Without(s, at))
  {
    var r := With(s, at, w);
    if Descending(r) {
      forall i | 0 <= i < at ensures s[i].zindex >= w.zindex { assert r[i] == s[i] && r[at] == w; }
      forall i | at <= i < |s| ensures w.zindex >= s[i].zindex { assert r[i + 1] == s[i] && r[at] == w; }
    }
  }

  /** The list is ordered by zindex, highest first, and among equals by time, earliest first. */
  ghost predicate Stable(s: seq<GUIWindow>, since: map<GUIWindow, nat>) {
    && (forall i :: 0 <= i < |s| ==> s[i] in since)
    && forall i, j :: 0 <= i < j < |s| ==>
         s[i].zindex > s[j].zindex || (s[i].zindex == s[j].zindex && since[s[i]] < since[s[j]])
  }

  /** The place `insert` chooses keeps equal windows in the order of their insertion. */
  lemma StaysStable(s: seq<GUIWindow>, at: nat, w: GUIWindow, since: map<GUIWindow, nat>, now: nat)
    requires Stable(s, since) && w !in s && at <= |s| && forall v :: v in since ==> since[v] < now
    requires forall i :: 0 <= i < at ==> s[i].zindex >= w.zindex
    requires at < |s| ==> s[at].zindex < w.zindex
    ensures Stable(With(s, at, w), since[w := now])
  {
  }

  /** Taking a window out keeps any order. */
  lemma TakenOut(s: seq<GUIWindow>, at: nat, since: map<GUIWindow, nat>)
    requires at < |s|
    ensures Descending(s) ==> Descending(Without(s, at))
    ensures Stable(s, since) ==> Stable(Without(s, at), since)
  {
  }
}
