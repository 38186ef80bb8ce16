/** The list of tracked objects: a circular doubly linked ring through the objects' own headers, closed by the
    generation's head. Tracking appends before the head, untracking unlinks in place. */
module GcRing {
  import opened Basics

  const UNTRACKED := -2
  const REACHABLE := -3

  class GcHead {
    var next: GcHead?
    var prev: GcHead?
    var refs: int

    constructor ()
      ensures refs == UNTRACKED
    {
      next, prev, refs := null, null, UNTRACKED;
    }
  }

  // ----- rings as sequences

  /** The links to the next member, but for those of members a and b (-1: no member). */
  ghost predicate Nexts(ring: seq<GcHead>, a: int, b: int)
    reads ring`next
  {
    forall i :: 0 <= i < |ring| && i != a && i != b ==> ring[i].next == Around(ring, i + 1)
  }

  ghost predicate Prevs(ring: seq<GcHead>, a: int, b: int)
    reads ring`prev
  {
    forall i :: 0 <= i < |ring| && i != a && i != b ==> ring[i].prev == Around(ring, i - 1)
  }

  /** The member at position i around the ring, one turn in either direction. */
  ghost function Around(ring: seq<GcHead>, i: int): GcHead? {
    if 0 <= i < |ring| then ring[i] else if i == -1 && ring != [] then ring[|ring| - 1] else if ring != [] then ring[0] else null
  }

  /** Each member leads to the one behind it and back, the last to the first. */
  ghost predicate Linked(ring: seq<GcHead>)
    reads ring`next, ring`prev
  {
    Nexts(ring, -1, -1) && Prevs(ring, -1, -1)
  }

  lemma Appended(was: seq<GcHead>, g: GcHead)
    requires |was| > 0 && g !in was
    requires was[|was| - 1].next == g && was[0].prev == g && g.next == was[0] && g.prev == was[|was| - 1]
    requires Nexts(was, |was| - 1, -1) && Prevs(was, 0, -1)
    ensures Linked(was + [g])
  {
  }

  /** What the two assignments of UNTRACK leave: the neighbours of member k lead past it, the others as before. */
  lemma Unlinked(was: seq<GcHead>, k: nat)
    requires 0 < k < |was| && NoDuplicates(was)
    requires was[k - 1].next == Around(was, k + 1) && (var q := if k + 1 < |was| then k + 1 else 0; was[q].prev == was[k - 1])
    requires Nexts(was, k - 1, k) && Prevs(was, k, if k + 1 < |was| then k + 1 else 0)
    ensures Linked(Cut(was, k))
  {
    CutAt(was, k);
    var ring := Cut(was, k);
    hide Cut;
    hide NoDuplicates;
    forall i | 0 <= i < |ring| ensures ring[i].next == Around(ring, i + 1) {
      UnlinkedNext(was, ring, k, i);
    }
    forall i | 0 <= i < |ring| ensures ring[i].prev == Around(ring, i - 1) {
      UnlinkedPrev(was, ring, k, i);
    }
  }

  lemma UnlinkedNext(was: seq<GcHead>, ring: seq<GcHead>, k: nat, i: nat)
    requires 0 < k < |was| && |ring| == |was| - 1 > i && Nexts(was, k - 1, k) && was[k - 1].next == Around(was, k + 1)
    requires forall m :: 0 <= m < |ring| ==> ring[m] == was[if m < k then m else m + 1]
    ensures ring[i].next == Around(ring, i + 1)
  {
    assert ring[i] == was[if i < k then i else i + 1];
  }

  lemma UnlinkedPrev(was: seq<GcHead>, ring: seq<GcHead>, k: nat, i: nat)
    requires 0 < k < |was| && |ring| == |was| - 1 > i
    requires var q := if k + 1 < |was| then k + 1 else 0; Prevs(was, k, q) && was[q].prev == was[k - 1]
    requires forall m :: 0 <= m < |ring| ==> ring[m] == was[if m < k then m else m + 1]
    ensures ring[i].prev == Around(ring, i - 1)
  {
    assert ring[i] == was[if i < k then i else i + 1];
  }

  lemma StillDistinct<T>(s: seq<T>, x: T)
    requires NoDuplicates(s) && x !in s
    ensures NoDuplicates(s + [x])
  {
  }

  lemma CutIn<T>(s: seq<T>, k: nat)
    requires 0 < k < |s| && NoDuplicates(s)
    ensures Cut(s, k)[0] == s[0] && NoDuplicates(Cut(s, k)) && s[k] !in Cut(s, k) && forall i :: 0 <= i < |Cut(s, k)| ==> Cut(s, k)[i] != s[k]
  {
    OnlyAt(s, k);
    CutDistinct(s, k);
  }

  // ----- the macros

  class Generation {
    const head: GcHead
    /** The head, then the tracked objects in order. */
    ghost var ring: seq<GcHead>

    ghost predicate Valid()
      reads this`ring, ring
    {
      && ring != [] && Linked(ring) && ring[0] == head && NoDuplicates(ring)
      && AllTracked(ring)
    }

    ghost predicate AllTracked(s: seq<GcHead>)
      reads s`refs
    {
      forall i :: 0 < i < |s| ==> s[i].refs != UNTRACKED
    }

    ghost function Tracked(): seq<GcHead>
      requires |ring| > 0
      reads this`ring
    {
      ring[1..]
    }

    constructor ()
      ensures Valid() && Tracked() == [] && fresh(head)
    {
      head := new GcHead();
      ring := [];
      new;
      head.next, head.prev, head.refs := head, head, 0;
      ring := [head];
    }

    /** _PyObject_GC_TRACK; not ok stands for its fatal error. */
    method Track(g: GcHead) returns (ok: bool)
      requires Valid() && g != head
      modifies this`ring, g, ring
      ensures Valid()
      ensures ok <==> old(g.refs) == -2
      ensures ok ==> g !in old(ring) && ring == old(ring) + [g] && g.refs == -3
      ensures !ok ==> ring == old(ring) && g.refs == old(g.refs)
    {
      if g.refs != UNTRACKED { return false; }
      NotInRing(g);
      hide Linked;
      hide NoDuplicates;
      g.refs := REACHABLE;
      Link(g);
      ok := true;
    }

    method Link(g: GcHead)
      requires ring != [] && ring[0] == head && Linked(ring) && NoDuplicates(ring) && g !in ring
      requires g.refs != UNTRACKED && forall i :: 0 < i < |ring| ==> ring[i].refs != UNTRACKED
      modifies this`ring, ring`next, ring`prev, g`next, g`prev
      ensures Valid() && ring == old(ring) + [g]
    {
      hide *;
      Append(g);
      Appended(ring, g);
      StillDistinct(ring, g);
      StillTracked(ring, g);
      ring := ring + [g];
      FromParts();
    }

    lemma NotInRing(g: GcHead)
      requires Valid() && g != head && g.refs == UNTRACKED
      ensures g !in ring && forall i :: 0 <= i < |ring| ==> ring[i] != g
    {
    }

    lemma StillTracked(s: seq<GcHead>, g: GcHead)
      requires g.refs != UNTRACKED && forall i :: 0 < i < |s| ==> s[i].refs != UNTRACKED
      ensures AllTracked(s + [g])
    {
    }

    /** Puts g between the last member and the head. */
    method Append(g: GcHead)
      requires ring != [] && ring[0] == head && Linked(ring) && NoDuplicates(ring) && g !in ring
      modifies ring`next, ring`prev, g`next, g`prev
      ensures Nexts(ring, |ring| - 1, -1) && Prevs(ring, 0, -1)
      ensures ring[|ring| - 1].next == g && head.prev == g && g.next == head && g.prev == ring[|ring| - 1]
    {
      LastMember(g);
      hide *;
      g.next := head;
      g.prev := head.prev;
      SetNext(g.prev, g, |ring| - 1, -1);
      SetPrev(head, g, 0, -1);
    }

    lemma LastMember(g: GcHead)
      requires ring != [] && ring[0] == head && Linked(ring) && g !in ring
      ensures head.prev == ring[|ring| - 1] != g
      ensures forall i :: 0 <= i < |ring| ==> ring[i] != g
      ensures Nexts(ring, -1, -1) && Prevs(ring, -1, -1)
    {
    }

    /** _PyObject_GC_UNTRACK, wherever the object is in the ring. */
    method Untrack(g: GcHead, ghost k: nat)
      requires Valid() && 0 < k < |ring| && ring[k] == g
      modifies this`ring, ring
      ensures Valid() && ring == Cut(old(ring), k)
      ensures g.refs == -2 && g.next == null && g !in ring
    {
      assert ring[k] in ring;
      OnlyAt(ring, k);
      hide Linked;
      hide NoDuplicates;
      g.refs := UNTRACKED;
      Unlink(g, k);
    }

    method Unlink(g: GcHead, ghost k: nat)
      requires 0 < k < |ring| && ring[k] == g && ring[0] == head && Linked(ring) && NoDuplicates(ring)
      requires forall i :: 0 < i < |ring| && i != k ==> ring[i].refs != UNTRACKED
      modifies this`ring, ring`next, ring`prev
      ensures Valid() && ring == Cut(old(ring), k) && g.next == null && g !in ring
    {
      hide *;
      CutRing(ring, k);
      Bypass(g, k);
      Unlinked(ring, k);
      RefsKept(ring, k);
      ring := Cut(ring, k);
      FromParts();
    }

    lemma CutRing(was: seq<GcHead>, k: nat)
      requires 0 < k < |was| && NoDuplicates(was)
      ensures NoDuplicates(Cut(was, k)) && Cut(was, k)[0] == was[0] && was[k] !in Cut(was, k)
    {
      CutIn(was, k);
    }

    lemma RefsKept(was: seq<GcHead>, k: nat)
      requires 0 < k < |was| && NoDuplicates(was)
      requires forall i :: 0 < i < |was| && i != k ==> was[i].refs != UNTRACKED
      ensures AllTracked(Cut(was, k))
    {
      CutAt(was, k);
    }

    lemma FromParts()
      requires ring != [] && Linked(ring) && ring[0] == head && NoDuplicates(ring) && AllTracked(ring)
      ensures Valid()
    {
    }

    /** The neighbours of g lead past it. */
    method Bypass(g: GcHead, ghost k: nat)
      requires 0 < k < |ring| && ring[k] == g && Linked(ring) && NoDuplicates(ring)
      modifies ring`next, ring`prev
      ensures Nexts(ring, k - 1, k) && Prevs(ring, k, if k + 1 < |ring| then k + 1 else 0)
      ensures ring[k - 1].next == Around(ring, k + 1) && g.next == null
      ensures ring[if k + 1 < |ring| then k + 1 else 0].prev == ring[k - 1]
    {
      ghost var q := if k + 1 < |ring| then k + 1 else 0;
      hide *;
      Neighbours(g, k);
      SetNext(g.prev, g.next, k - 1, -1);
      SetPrev(g.next, g.prev, q, k);
      SetNext(g, null, k, k - 1);
    }

    lemma Neighbours(g: GcHead, k: nat)
      requires 0 < k < |ring| && ring[k] == g && Linked(ring) && NoDuplicates(ring)
      ensures var q := if k + 1 < |ring| then k + 1 else 0;
              g.prev == ring[k - 1] && g.next == ring[q] == Around(ring, k + 1) && g !in {ring[k - 1], ring[q]}
      ensures Nexts(ring, -1, -1) && Prevs(ring, -1, -1)
    {
    }

    /** One assignment; all links but that of member i, and of member b, stay right. */
    method SetNext(a: GcHead, x: GcHead?, ghost i: nat, ghost b: int)
      requires i < |ring| && ring[i] == a && NoDuplicates(ring) && Nexts(ring, b, -1)
      modifies a`next
      ensures a.next == x && Nexts(ring, i, b) && Nexts(ring, b, i)
    {
      OnlyAt(ring, i);
      hide NoDuplicates;
      a.next := x;
    }

    method SetPrev(a: GcHead, x: GcHead?, ghost i: nat, ghost b: int)
      requires i < |ring| && ring[i] == a && NoDuplicates(ring) && Prevs(ring, -1, -1)
      modifies a`prev
      ensures a.prev == x && Prevs(ring, b, i) && Prevs(ring, i, b)
    {
      OnlyAt(ring, i);
      hide NoDuplicates;
      a.prev := x;
    }
  }
}
