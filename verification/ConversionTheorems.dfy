/** The conversion as a whole: the native graph unfolds like the Java graph, and shares what the Java graph shares
    exactly when no late object is entered that leads back to itself through objects without handles. */
module ConversionTheorems {
  import opened Basics
  import opened JavaGraph
  import opened Conversion
  import opened ConversionGraph
  import opened ConversionReach
  import opened ConversionOnce

  /** What holds of a native heap between conversions: every mirrored object has its converted items. */
  ghost predicate Mirrored(g: Graph, st: St) {
    Valid(g, st) && Sound(g, st) && forall n :: 0 <= n < |st.objs| ==> Done(g, st, n)
  }

  /** Every native object made for a Java object is the one its handle leads to. */
  ghost predicate OneEach(g: Graph, st: St) {
    forall n :: 0 <= n < |st.objs| && st.objs[n].src.Some? && st.objs[n].src.value in g.heap ==>
      st.objs[n].src.value in st.handle && st.handle[st.objs[n].src.value] == n
  }

  /** Converting keeps the heap mirrored, and the result stands for what was converted. */
  lemma ConversionMirrors(g: Graph, st: St, r: JRef)
    requires Ready(g, st) && InHeap(g, r) && Mirrored(g, st)
    ensures var (st', v) := Convert(g, st, r); Mirrored(g, st') && Rep(g, st', r, v) && Extends(st, st', -1)
  {
    ConvertKeeps(g, st, r);
    ConvertDone(g, st, r);
    var st' := Convert(g, st, r).0;
    hide Convert; hide Done;
    forall n | 0 <= n < |st'.objs| ensures Done(g, st', n) {
      if n < |st.objs| { DoneStays(g, st, st', -1, n); }
    }
  }

  // ----- unfolding

  /** The Java object or null found by following items number path[0], path[1], ... from r. */
  function JavaWalk(g: Graph, r: JRef, path: seq<nat>): Option<JRef>
    decreases |path|
  {
    if path == [] then Some(r)
    else if r.JTo? && r.j in g.heap && path[0] < |Kids(g.heap[r.j])| then
      JavaWalk(g, Kids(g.heap[r.j])[path[0]], path[1..])
    else None
  }

  /** The same on native slots. */
  function NativeWalk(st: St, v: NRef, path: seq<nat>): Option<NRef>
    decreases |path|
  {
    if path == [] then Some(v)
    else if v.To? && v.n < |st.objs| && path[0] < |st.objs[v.n].slots| then
      NativeWalk(st, st.objs[v.n].slots[path[0]], path[1..])
    else None
  }

  /** A converted object has as many slots as items are converted, each standing for its item. */
  lemma ItemsMatch(g: Graph, st: St, j: JId, v: NRef)
    requires Mirrored(g, st) && Rep(g, st, JTo(j), v) && !g.heap[j].kind.Native?
    ensures |st.objs[v.n].slots| == |Kids(g.heap[j])|
    ensures forall i :: 0 <= i < |Kids(g.heap[j])| ==> Rep(g, st, Kids(g.heap[j])[i], st.objs[v.n].slots[i])
  {
    assert Done(g, st, v.n);
  }

  /** The counterpart of a tuple, list, cell, function or late object has a slot for each reference, that of any other
      object none; every slot holds the counterpart of its reference. */
  lemma SlotsStand(g: Graph, st: St, j: JId, v: NRef)
    requires Mirrored(g, st) && Rep(g, st, JTo(j), v) && !g.heap[j].kind.Native?
    ensures var o := g.heap[j]; var slots := st.objs[v.n].slots;
            && |slots| == (if o.kind.Tuple? || o.kind.List? || o.kind.Early? || o.kind.Late? then |o.refs| else 0)
            && forall i :: 0 <= i < |slots| ==> Rep(g, st, o.refs[i], slots[i])
  {
    ItemsMatch(g, st, j, v);
    hide Mirrored; hide Rep;
  }

  /** Wherever a walk through the Java graph leads, the same walk through the native graph leads to its
      counterpart -- cycles, sharing and objects made twice included. */
  lemma {:induction false} SameUnfolding(g: Graph, st: St, r: JRef, v: NRef, path: seq<nat>)
    requires Mirrored(g, st) && Rep(g, st, r, v) && JavaWalk(g, r, path).Some?
    ensures NativeWalk(st, v, path).Some?
    ensures Rep(g, st, JavaWalk(g, r, path).value, NativeWalk(st, v, path).value)
    decreases |path|
  {
    if path != [] {
      ItemsMatch(g, st, r.j, v);
      hide Mirrored; hide Rep;
      SameUnfolding(g, st, Kids(g.heap[r.j])[path[0]], st.objs[v.n].slots[path[0]], path[1..]);
    }
  }

  /** A Java object with a native object of its own. */
  predicate Own(g: Graph, r: JRef) {
    r.JTo? && r.j in g.heap && !g.heap[r.j].kind.Native? && !IsConstant(g, r.j)
  }

  /** Objects that are converted at all, not found. */
  predicate Converted(g: Graph, r: JRef) { r.JTo? && r.j in g.heap && !g.heap[r.j].kind.Native? }

  predicate EmptyTuple(g: Graph, j: JId) { j in g.heap && g.heap[j].kind.Tuple? && g.heap[j].refs == [] }

  /** The same object, or constants of the same value: empty tuples, or equal small ints or one-letter strings. */
  predicate Alike(g: Graph, r: JRef, q: JRef) {
    r == q || (r.JTo? && q.JTo? && ((EmptyTuple(g, r.j) && EmptyTuple(g, q.j)) || SameLeaf(g, r.j, q.j)))
  }

  predicate SameLeaf(g: Graph, j: JId, k: JId) {
    j in g.heap && k in g.heap && g.heap[j].kind.Cached? && g.heap[k].kind.Cached? && g.heap[j].kind.v == g.heap[k].kind.v
  }

  /** Two walks meet in the native graph exactly when they meet in the Java graph, or lead to constants of the same
      value. */
  lemma SharingPreserved(g: Graph, st: St, r: JRef, v: NRef, p: seq<nat>, q: seq<nat>)
    requires Mirrored(g, st) && OneEach(g, st) && Rep(g, st, r, v)
    requires JavaWalk(g, r, p).Some? && JavaWalk(g, r, q).Some?
    requires Converted(g, JavaWalk(g, r, p).value) && Converted(g, JavaWalk(g, r, q).value)
    ensures NativeWalk(st, v, p) == NativeWalk(st, v, q) <==> Alike(g, JavaWalk(g, r, p).value, JavaWalk(g, r, q).value)
  {
    SameUnfolding(g, st, r, v, p);
    SameUnfolding(g, st, r, v, q);
    var (a, b) := (JavaWalk(g, r, p).value, JavaWalk(g, r, q).value);
    var (x, y) := (NativeWalk(st, v, p).value, NativeWalk(st, v, q).value);
    hide JavaWalk; hide NativeWalk; hide Done;
    MeetIff(g, st, a, b, x, y);
  }

  lemma MeetIff(g: Graph, st: St, a: JRef, b: JRef, x: NRef, y: NRef)
    requires Valid(g, st) && OneEach(g, st) && Rep(g, st, a, x) && Rep(g, st, b, y) && Converted(g, a) && Converted(g, b)
    ensures x == y <==> Alike(g, a, b)
  {
    assert NoConstant(g, st.objs[x.n].src) && NoConstant(g, st.objs[y.n].src);
  }

  /** Of two constants of one value, the second is given the native object of the first: nothing is made, and unless it
      is an empty tuple it gets no handle. */
  lemma ConstantTakenAgain(g: Graph, st: St, j: JId, k: JId)
    requires Ready(g, st) && Valid(g, st) && j != k && j !in st.handle && k !in st.handle
    requires Alike(g, JTo(j), JTo(k))
    ensures var (st1, v) := Convert(g, st, JTo(j));
            && Ready(g, st1)
            && var (st2, w) := Convert(g, st1, JTo(k));
               v == w && st2.objs == st1.objs && (k in st2.handle <==> EmptyTuple(g, k))
  {
    var c := ConstantOf(g.heap[j]).value;
    var (st1, n) := MakeConstant(g, st, j, c);
    ConstantKeeps(g, st, j, c);
    assert Convert(g, st, JTo(j)) == (st1, To(n));
    assert c in st1.flagged && k !in st1.handle;
    ConstantKeeps(g, st1, k, c);
    assert Convert(g, st1, JTo(k)).0 == MakeConstant(g, st1, k, c).0;
  }

  // ----- created once

  /** The conversion keeps one native object for each Java object exactly if it is `Single`. */
  lemma OneEachIff(g: Graph, st: St, r: JRef)
    requires Ready(g, st) && InHeap(g, r) && Valid(g, st) && Sound(g, st) && OneEach(g, st)
    ensures OneEach(g, Convert(g, st, r).0) <==> Single(g, Handles(g, st), r)
  {
    ConvertKeeps(g, st, r);
    ConvertDone(g, st, r);
    ConvertMadeOnce(g, st, r);
    hide Convert;
    OneEachStays(g, st, Convert(g, st, r).0);
  }

  lemma OneEachStays(g: Graph, st: St, st': St)
    requires Extends(st, st', -1) && NewDone(g, st, st') && OneEach(g, st)
    ensures OneEach(g, st') <==> MadeOnce(st, st')
  {
    hide Done;
    forall n | |st.objs| <= n < |st'.objs| && st'.objs[n].src.Some?
      ensures st'.objs[n].src.value in g.heap && st'.objs[n].src.value in st'.handle
    {
      assert NewSource(g, st, st', n);
    }
  }

  /** Then it makes exactly one native object for every Java object it gives a handle to, and these are the objects
      that are reached through objects without handles. */
  lemma CreatedOnce(g: Graph, st: St, r: JRef, j: JId)
    requires Ready(g, st) && InHeap(g, r) && Valid(g, st) && Sound(g, st) && OneEach(g, st)
    requires Single(g, Handles(g, st), r) && Own(g, JTo(j)) && j !in st.handle
    ensures var st' := Convert(g, st, r).0;
            && (j in Registered(g, Handles(g, st), r) <==>
                  exists n :: |st.objs| <= n < |st'.objs| && st'.objs[n].src == Some(j))
            && forall n, m :: 0 <= n < |st'.objs| && 0 <= m < |st'.objs| && st'.objs[n].src == Some(j) == st'.objs[m].src ==>
                 n == m
  {
    var st' := Convert(g, st, r).0;
    ConvertKeeps(g, st, r);
    ConvertDone(g, st, r);
    OneEachIff(g, st, r);
    HandlesExactly(g, st, r);
    hide Convert; hide Done; hide Registered; hide Single; hide NoLateCycle;
    if j in st'.handle { assert Stands(g, st', j, st'.handle[j]); }
    forall n | |st.objs| <= n < |st'.objs| ensures NewSource(g, st, st', n) { }
  }

  /** In whatever order items are converted: sharing is kept if every cycle of a late object meets a registered
      object or, on each way there, a registered-first object. */
  lemma GuardedKeepsOneEach(g: Graph, st: St, r: JRef)
    requires Ready(g, st) && InHeap(g, r) && Valid(g, st) && Sound(g, st) && OneEach(g, st)
    requires Guarded(g, Handles(g, st), r)
    ensures OneEach(g, Convert(g, st, r).0)
  {
    GuardedSingle(g, Handles(g, st), r);
    OneEachIff(g, st, r);
  }

  /** In particular if no late object lies on a cycle, wherever the conversion starts ... */
  lemma NoLateOnCycleKeepsOneEach(g: Graph, st: St, r: JRef)
    requires Ready(g, st) && InHeap(g, r) && Valid(g, st) && Sound(g, st) && OneEach(g, st)
    requires NoLateOnCycle(g)
    ensures OneEach(g, Convert(g, st, r).0)
  {
    NoLateOnCycleGuarded(g, Handles(g, st), r);
    GuardedKeepsOneEach(g, st, r);
  }

  /** ... and if every cycle of a late object passes through the tuple, list, cell or function it starts at. */
  lemma StartKeepsOneEach(g: Graph, st: St, j: JId)
    requires Ready(g, st) && j in g.heap && Valid(g, st) && Sound(g, st) && OneEach(g, st)
    requires !g.heap[j].kind.Late?
    requires forall k :: IsLate(g, k) ==> !ViaItem(Outside(g, Handles(g, st) + {j}), k, k)
    ensures OneEach(g, Convert(g, st, JTo(j)).0)
  {
    StartGuarded(g, Handles(g, st), j);
    GuardedKeepsOneEach(g, st, JTo(j));
  }

  // ----- made twice

  lemma LateCreated(g: Graph, st: St, j: JId)
    requires Ready(g, st) && Valid(g, st) && IsLate(g, j) && j !in st.handle
    ensures var st1 := Collect(g, st, j, 0).0;
            && Extends(st, st1, -1) && |Create(g, st, j).0.objs| == |st1.objs| + 1
            && Create(g, st, j).1 == |st1.objs|
            && forall n :: 0 <= n < |st1.objs| ==> Create(g, st, j).0.objs[n] == st1.objs[n]
  {
    var (st1, vs) := Collect(g, st, j, 0);
    CollectKeeps(g, st, j, 0);
    MakeLateKeepsValid(g, st, st1, j, vs);
    hide Collect; hide MakeLate; hide Valid;
  }

  /** Converting a late object, at any point of a conversion, makes another native object for it, besides the result,
      exactly when it can be reached again from its own items through objects without handles. */
  lemma LateMadeTwiceIff(g: Graph, st: St, j: JId)
    requires Ready(g, st) && Valid(g, st) && Sound(g, st) && IsLate(g, j) && j !in st.handle
    ensures var (st', res) := Create(g, st, j);
            (exists n :: |st.objs| <= n < |st'.objs| && n != res && st'.objs[n].src == Some(j))
            <==> ViaItem(Outside(g, Handles(g, st)), j, j)
  {
    var st1 := Collect(g, st, j, 0).0;
    var (st', res) := Create(g, st, j);
    LateCreated(g, st, j);
    ReenteredIff(g, st, j);
    CollectDone(g, st, j, 0);
    hide Create; hide Collect; hide ViaItem; hide Ready;
    SecondOne(g, st, st1, j);
    if j in st1.handle { assert st'.objs[st1.handle[j]].src == Some(j); }
  }

  lemma SecondOne(g: Graph, st: St, st1: St, j: JId)
    requires Sound(g, st1) && NewDone(g, st, st1) && IsLate(g, j) && j !in st.handle
    ensures (exists n :: |st.objs| <= n < |st1.objs| && st1.objs[n].src == Some(j)) <==> j in st1.handle
    ensures j in st1.handle ==> |st.objs| <= st1.handle[j] < |st1.objs| && st1.objs[st1.handle[j]].src == Some(j)
  {
    hide Done;
    if j in st1.handle { assert Stands(g, st1, j, st1.handle[j]); }
    forall n | |st.objs| <= n < |st1.objs| && st1.objs[n].src == Some(j) ensures j in st1.handle {
      assert NewSource(g, st, st1, n);
    }
  }

  /** A bound method 0 kept in a list 1 that the method itself refers to. */
  function MethodInList(): Graph {
    Graph(map[0 := JObj(Late(Method), [JTo(1)]), 1 := JObj(List, [JTo(0)])], {}, {})
  }

  function NoNatives(): St { St([], [], [], map[], map[], {}) }

  lemma MethodInListReady()
    ensures Ready(MethodInList(), NoNatives()) && Valid(MethodInList(), NoNatives()) && Sound(MethodInList(), NoNatives())
    ensures ViaItem(MethodInList(), 0, 0)
  {
    var g := MethodInList();
    assert NoLateCycle(g);
    assert Edge(g, false, 0, 1);
    assert Edge(g, false, 1, 0);
    ReachesSelf(g, false, 0);
    ReachesAlong(g, false, 1, 0, 0);
  }

  /** Every cycle of this graph passes through a registered-first object, so the conversion terminates; still,
      started at the method, it makes the method twice ... */
  lemma MadeTwiceWitness()
    ensures var g, st := MethodInList(), NoNatives();
            && Ready(g, st)
            && exists n :: 0 <= n < |Create(g, st, 0).0.objs| && n != Create(g, st, 0).1
                           && Create(g, st, 0).0.objs[n].src == Some(0)
  {
    MethodInListReady();
    var g, st := MethodInList(), NoNatives();
    assert Outside(g, Handles(g, st)) == g;
    LateMadeTwiceIff(g, st, 0);
    hide Create; hide ViaItem;
    assert |st.objs| == 0;
  }

  /** ... but started at the list it makes each once. */
  lemma MadeOnceWitness()
    ensures Ready(MethodInList(), NoNatives()) && OneEach(MethodInList(), Convert(MethodInList(), NoNatives(), JTo(1)).0)
  {
    var g := MethodInList();
    MethodInListReady();
    var h := Outside(g, Handles(g, NoNatives()) + {1});
    assert 1 in h.known;
    forall k | IsLate(g, k) ensures !ViaItem(h, k, k) {
      forall m | Edge(h, false, k, m) ensures !Reaches(h, false, m, k) {
        if Reaches(h, false, m, k) { RegisteredEndsPaths(h, false, m, k); }
      }
      hide Reaches; hide Edge;
    }
    StartKeepsOneEach(g, NoNatives(), 1);
  }
}
