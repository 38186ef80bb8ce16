/** When a conversion leaves references behind: exactly when it reaches, through objects without handles, a late object
    that has none itself, refers to something and has a constructor that takes references of its own. */
module ConversionLeaks {
  import opened Basics
  import opened JavaGraph
  import opened Conversion
  import opened ConversionGraph
  import opened ConversionReach
  import opened ConversionCounts

  /** The reference counts a caller expects: slots, weak-reference backends, caches, the result. */
  function Expected(st: St, v: NRef, n: NId): int {
    Slots(st.objs, n, false) + (if n < |st.weakOwned| then st.weakOwned[n] else 0)
    + (if n in st.shared.Values then 1 else 0) + Is(v, n)
  }

  function Count(st: St, n: NId): int { if n < |st.counts| then st.counts[n] else 0 }

  /** Every count, of old and new objects, has changed as expected. */
  ghost predicate CountsAsExpected(st: St, st': St, v: NRef) {
    forall n :: 0 <= n < |st'.objs| ==> Count(st', n) - Count(st, n) == Expected(st', v, n) - Expected(st, Null, n)
  }

  /** Decided before the call, on the Java graph. */
  ghost predicate LeakAhead(g: Graph, registered: set<JId>, r: JRef) {
    exists k, i :: k in Registered(g, registered, r) && k !in registered && Borrowed(g, k, i)
  }

  /** Item i of k is not null and taken by a constructor that takes a reference of its own: that of every late object but
      a property. */
  predicate Borrowed(g: Graph, k: JId, i: int) {
    && k in g.heap && g.heap[k].kind.Late?
    && g.heap[k].kind.what in {Method, Class, Instance, ClassMethod, StaticMethod, DictProxy}
    && 0 <= i < |g.heap[k].refs| && g.heap[k].refs[i] != JNull
  }

  // ----- slots of objects with borrowing constructors

  lemma {:induction false} OccPositive(vs: seq<NRef>, n: NId)
    ensures Occ(vs, n) > 0 <==> To(n) in vs
  {
    if vs != [] {
      OccPositive(vs[..|vs| - 1], n);
      assert vs == vs[..|vs| - 1] + [vs[|vs| - 1]];
    }
  }

  lemma {:induction false} LeakySlotsGrow(objs: seq<NObj>, more: seq<NObj>, n: NId)
    requires |objs| <= |more| && forall m :: 0 <= m < |objs| ==> more[m] == objs[m]
    ensures Slots(more, n, true) >= Slots(objs, n, true)
    ensures Slots(more, n, true) > Slots(objs, n, true)
            <==> exists m :: |objs| <= m < |more| && more[m].leaky && To(n) in more[m].slots
    decreases |more|
  {
    if |more| == |objs| {
      assert more == objs;
    } else {
      var last := |more| - 1;
      LeakySlotsGrow(objs, more[..last], n);
      OccPositive(more[last].slots, n);
      assert forall m :: 0 <= m < last ==> more[..last][m] == more[m];
    }
  }

  lemma NothingExpected(g: Graph, st: St, n: NId)
    requires Valid(g, st) && n >= |st.objs|
    ensures Expected(st, Null, n) == 0 && Slots(st.objs, n, true) == 0
  {
    SlotsOutOfRange(st.objs, |st.objs|, n, false);
    SlotsOutOfRange(st.objs, |st.objs|, n, true);
  }

  /** The references left behind for n. */
  lemma LeakOf(g: Graph, st: St, r: JRef, n: NId)
    requires Ready(g, st) && InHeap(g, r) && Valid(g, st) && n < |Convert(g, st, r).0.objs|
    ensures var (st', v) := Convert(g, st, r);
            Count(st', n) - Count(st, n)
            == Expected(st', v, n) - Expected(st, Null, n) + Slots(st'.objs, n, true) - Slots(st.objs, n, true)
  {
    CountsConserved(g, st, r, n);
    if n >= |st.objs| { NothingExpected(g, st, n); }
    hide Convert; hide Slots;
  }

  /** The new objects made by borrowing constructors are those ahead. */
  lemma LeakyIffAhead(g: Graph, st: St, st': St, r: JRef)
    requires Sound(g, st') && NewDone(g, st, st') && Handles(g, st') == Registered(g, Handles(g, st), r)
    ensures (exists n: NId, m :: |st.objs| <= m < |st'.objs| && st'.objs[m].leaky && To(n) in st'.objs[m].slots)
            <==> LeakAhead(g, Handles(g, st), r)
  {
    hide Registered;
    forall n: NId, m | |st.objs| <= m < |st'.objs| && st'.objs[m].leaky && To(n) in st'.objs[m].slots
      ensures LeakAhead(g, Handles(g, st), r)
    {
      assert Done(g, st', m) && NewSource(g, st, st', m);
      var k := st'.objs[m].src.value;
      var i :| 0 <= i < |st'.objs[m].slots| && st'.objs[m].slots[i] == To(n);
      assert Rep(g, st', Kids(g.heap[k])[i], st'.objs[m].slots[i]);
      assert Borrowed(g, k, i);
    }
    if LeakAhead(g, Handles(g, st), r) {
      var k, i :| k in Registered(g, Handles(g, st), r) && k !in Handles(g, st) && Borrowed(g, k, i);
      var m := st'.handle[k];
      assert Stands(g, st', k, m) && Done(g, st', m);
      assert Rep(g, st', Kids(g.heap[k])[i], st'.objs[m].slots[i]);
      assert To(st'.objs[m].slots[i].n) in st'.objs[m].slots;
    }
  }

  /** All counts change as expected exactly if no such object is ahead. */
  lemma NoLeakIff(g: Graph, st: St, r: JRef)
    requires Ready(g, st) && InHeap(g, r) && Valid(g, st) && Sound(g, st)
    ensures var (st', v) := Convert(g, st, r);
            CountsAsExpected(st, st', v) <==> !LeakAhead(g, Handles(g, st), r)
  {
    var (st', v) := Convert(g, st, r);
    ConvertKeeps(g, st, r);
    ConvertDone(g, st, r);
    HandlesExactly(g, st, r);
    LeakyIffAhead(g, st, st', r);
    hide Convert; hide LeakAhead; hide Sound; hide NewDone; hide Ready;
    forall n | 0 <= n < |st'.objs|
      ensures Count(st', n) - Count(st, n) == Expected(st', v, n) - Expected(st, Null, n)
              + Slots(st'.objs, n, true) - Slots(st.objs, n, true)
    {
      LeakOf(g, st, r, n);
    }
    SomethingLeaks(g, st, st', v);
  }

  lemma SomethingLeaks(g: Graph, st: St, st': St, v: NRef)
    requires Valid(g, st') && Extends(st, st', -1)
    requires forall n :: 0 <= n < |st'.objs| ==>
               Count(st', n) - Count(st, n) == Expected(st', v, n) - Expected(st, Null, n)
               + Slots(st'.objs, n, true) - Slots(st.objs, n, true)
    ensures CountsAsExpected(st, st', v)
            <==> !exists n: NId, m :: |st.objs| <= m < |st'.objs| && st'.objs[m].leaky && To(n) in st'.objs[m].slots
  {
    hide Expected; hide Count; hide Slots;
    forall n | 0 <= n < |st'.objs|
      ensures Slots(st'.objs, n, true) == Slots(st.objs, n, true) <==>
              !exists m :: |st.objs| <= m < |st'.objs| && st'.objs[m].leaky && To(n) in st'.objs[m].slots
    {
      LeakySlotsGrow(st.objs, st'.objs, n);
    }
    if n: NId, m :| |st.objs| <= m < |st'.objs| && st'.objs[m].leaky && To(n) in st'.objs[m].slots {
      assert n < |st'.objs|;
      assert Slots(st'.objs, n, true) != Slots(st.objs, n, true);
    }
  }

  /** A bound method 0 of the object 1: one slot holds the object, its count is two. */
  lemma LeakWitness()
    ensures var g, st := Graph(map[0 := JObj(Late(Method), [JTo(1)]), 1 := JObj(Leaf, [])], {}, {}), St([], [], [], map[], map[], {});
            && Ready(g, st)
            && var (st', v) := Convert(g, st, JTo(0));
               && 1 in st'.handle && st'.handle[1] < |st'.counts| && v != To(st'.handle[1])
               && st'.counts[st'.handle[1]] == 2 && Slots(st'.objs, st'.handle[1], false) == 1
               && Expected(st', v, st'.handle[1]) == 1
  {
    var g, st := Graph(map[0 := JObj(Late(Method), [JTo(1)]), 1 := JObj(Leaf, [])], {}, {}), St([], [], [], map[], map[], {});
    assert NoLateCycle(g) by {
      forall j, k ensures !Edge(g, true, j, k) { }
    }
    var st1 := MakeShell(st, 1, 0);
    assert Convert(g, st, JTo(1)) == (st1, To(0));
    assert Collect(g, st1, 0, 1) == (st1, []);
    assert Collect(g, st, 0, 0) == (st1, [To(0)] + []);
    assert [To(0)] + [] == [To(0)];
    var st' := MakeLate(g, st1, 0, [To(0)]);
    assert Convert(g, st, JTo(0)) == (st', To(1));
    assert IncRefs(New(st1, NObj(Some(0), [To(0)], true), 1), [To(0)]).counts == [2, 1];
  }
}
