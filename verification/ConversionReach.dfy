/** Which objects a conversion gives handles to: exactly those that can be reached through objects without one. */
module ConversionReach {
  import opened Basics
  import opened JavaGraph
  import opened Conversion
  import opened ConversionGraph

  /** What can be reached from j through objects that are not registered. */
  ghost function Reached(g: Graph, registered: set<JId>, j: JId): set<JId> {
    set k | k in g.heap && !g.heap[k].kind.Native? && Reaches(Outside(g, registered), false, j, k)
  }

  /** Objects whose constructor returns a shared native object. INIT_JY gives only the first of them a handle; none of
      them has a native object of its own. */
  ghost function CachedLeaves(g: Graph): set<JId> { set j | j in g.heap && g.heap[j].kind.Cached? }

  /** The objects a conversion need not make: those with handles, and the cached ones. */
  ghost function Handles(g: Graph, st: St): set<JId> { st.handle.Keys + CachedLeaves(g) }

  /** Asking for r comes to a conversion. */
  predicate Unmirrored(g: Graph, registered: set<JId>, r: JRef) {
    r.JTo? && r.j in g.heap && !g.heap[r.j].kind.Native? && r.j !in registered
  }

  /** The objects with handles after r was converted, from those before. */
  ghost function Registered(g: Graph, registered: set<JId>, r: JRef): set<JId> {
    if Unmirrored(g, registered, r) then registered + Reached(g, registered, r.j) else registered
  }

  // ----- no handle but those

  ghost predicate NewReached(g: Graph, st: St, st': St, j: JId) {
    forall k :: k in st'.handle && k !in st.handle ==> k in Reached(g, Handles(g, st), j)
  }

  ghost predicate NewViaItem(g: Graph, registered: set<JId>, st: St, st': St, j: JId) {
    forall k :: k in st'.handle && k !in st.handle ==>
      k in g.heap && !g.heap[k].kind.Native? && ViaItem(Outside(g, registered), j, k)
  }

  ghost predicate ItemReached(g: Graph, st: St, st': St, r: JRef) {
    if r.JTo? then NewReached(g, st, st', r.j) else st'.handle == st.handle
  }

  /** Converting j follows its references. */
  predicate HasItems(g: Graph, j: JId) {
    j in g.heap && Kids(g.heap[j]) == g.heap[j].refs && !g.heap[j].kind.Native? && !g.heap[j].kind.Cached?
  }

  lemma ItemStep(g: Graph, registered: set<JId>, st: St, st1: St, st': St, j: JId, i: nat)
    requires Closed(g) && HasItems(g, j) && j !in registered && registered <= Handles(g, st) && i < |g.heap[j].refs|
    requires ItemReached(g, st, st1, g.heap[j].refs[i])
    requires st.handle.Keys <= st1.handle.Keys && NewViaItem(g, registered, st1, st', j)
    ensures NewViaItem(g, registered, st, st', j)
  {
    var r := g.heap[j].refs[i];
    forall k | k in st'.handle && k !in st.handle
      ensures k in g.heap && !g.heap[k].kind.Native? && ViaItem(Outside(g, registered), j, k)
    {
      if k in st1.handle {
        ReachesOutside(g, false, registered, Handles(g, st), r.j, k);
        assert Edge(Outside(g, registered), false, j, r.j);
      }
    }
  }

  lemma {:induction false} ConvertReach(g: Graph, st: St, r: JRef)
    requires Ready(g, st) && InHeap(g, r)
    ensures ItemReached(g, st, Convert(g, st, r).0, r)
    decreases Unregistered(g, st), Rank(g, r), 2, 0
  {
    if Unmirrored(g, Handles(g, st), r) {
      CreateReach(g, st, r.j);
    } else if r.JTo? {
      ReachesSelf(Outside(g, Handles(g, st)), false, r.j);
    }
  }

  lemma {:induction false} CreateReach(g: Graph, st: St, j: JId)
    requires Ready(g, st) && j in g.heap && j !in Handles(g, st) && !g.heap[j].kind.Native?
    ensures NewReached(g, st, Create(g, st, j).0, j)
    decreases Unregistered(g, st), LateRank(g, j), 1, 0
  {
    var o := g.heap[j];
    var keys := Handles(g, st);
    ReachesSelf(Outside(g, keys), false, j);
    assert j in Reached(g, keys, j);
    hide Reached; hide Create; hide Collect; hide Fill; hide NewViaItem; hide Snapshot;
    if o.kind.Late? {
      LateCreates(g, st, j);
      CollectReach(g, keys, st, j, 0);
      ReachedThen(g, keys, st, Collect(g, st, j, 0).0, Create(g, st, j).0, j);
    } else if Kids(o) != [] {
      var st1 := MakeShell(st, j, |o.refs|);
      UnregisteredFalls(g, st, st1);
      FilledCreates(g, st, j);
      FillReach(g, keys, st1, j, |st.objs|, Snapshot(g, st, o), 0);
      ReachedThen(g, keys, st1, Fill(g, st1, j, |st.objs|, Snapshot(g, st, o), 0), Create(g, st, j).0, j);
    } else {
      PlainCreates(g, st, j);
    }
  }

  lemma LateCreates(g: Graph, st: St, j: JId)
    requires Ready(g, st) && IsLate(g, j) && j !in st.handle
    ensures Create(g, st, j).0.handle.Keys == Collect(g, st, j, 0).0.handle.Keys + {j}
  {
  }

  /** Leaves, truncated objects and empty containers. */
  lemma PlainCreates(g: Graph, st: St, j: JId)
    requires Ready(g, st) && j in g.heap && j !in Handles(g, st) && !g.heap[j].kind.Late? && Kids(g.heap[j]) == []
    ensures Create(g, st, j).0.handle.Keys == st.handle.Keys + {j}
  {
  }

  lemma FilledCreates(g: Graph, st: St, j: JId)
    requires Ready(g, st) && j in g.heap && j !in st.handle && !g.heap[j].kind.Late? && Kids(g.heap[j]) != []
    ensures var st1 := MakeShell(st, j, |g.heap[j].refs|);
            && Ready(g, st1)
            && var st2 := Fill(g, st1, j, |st.objs|, Snapshot(g, st, g.heap[j]), 0);
               Create(g, st, j).0.objs == st2.objs && Create(g, st, j).0.handle == st2.handle
  {
    var st1 := MakeShell(st, j, |g.heap[j].refs|);
    UnregisteredFalls(g, st, st1);
    FinishChangesCountsOnly(g, Fill(g, st1, j, |st.objs|, Snapshot(g, st, g.heap[j]), 0), j, |st.objs|);
  }

  lemma ReachedThen(g: Graph, registered: set<JId>, st: St, st1: St, st': St, j: JId)
    requires NewViaItem(g, registered, st, st1, j) && st'.handle.Keys <= st1.handle.Keys + {j}
    ensures forall k :: k in st'.handle && k !in st.handle && k != j ==> k in Reached(g, registered, j)
  {
    forall k | k in st'.handle && k !in st.handle && k != j ensures k in Reached(g, registered, j) {
      ViaItemReaches(Outside(g, registered), j, k);
    }
  }

  lemma SameHandlesVia(g: Graph, registered: set<JId>, a: St, b: St, c: St, j: JId)
    requires NewViaItem(g, registered, a, c, j) && a.handle == b.handle
    ensures NewViaItem(g, registered, b, c, j)
  {
  }

  lemma NothingVia(g: Graph, registered: set<JId>, st: St, j: JId)
    ensures NewViaItem(g, registered, st, st, j)
  {
  }

  lemma {:induction false} FillReach(g: Graph, registered: set<JId>, st: St, j: JId, n: NId, snap: seq<NRef>, i: nat)
    requires Ready(g, st) && HasItems(g, j) && j !in registered && registered <= Handles(g, st)
    requires i <= |g.heap[j].refs| == |snap|
    ensures NewViaItem(g, registered, st, Fill(g, st, j, n, snap, i), j)
    decreases Unregistered(g, st), |g.heap| + 1, 1, |snap| - i
  {
    hide Fill; hide FillItem; hide NoLateCycle; hide Closed; hide NewViaItem; hide ItemReached; hide Unregistered;
    if i == |snap| {
      FillEnds(g, st, j, n, snap);
      NothingVia(g, registered, st, j);
    } else {
      var (st1, v) := FillItem(g, st, j, snap, i);
      var st2 := SetSlot(st1, n, i, v);
      FillItemReach(g, st, j, snap, i);
      FillFrom(g, st, j, n, snap, i);
      FillReach(g, registered, st2, j, n, snap, i + 1);
      SameHandlesVia(g, registered, st2, st1, Fill(g, st, j, n, snap, i), j);
      ItemStep(g, registered, st, st1, Fill(g, st, j, n, snap, i), j, i);
    }
  }

  lemma {:induction false} FillItemReach(g: Graph, st: St, j: JId, snap: seq<NRef>, i: nat)
    requires Ready(g, st) && j in g.heap && i < |g.heap[j].refs| == |snap|
    ensures ItemReached(g, st, FillItem(g, st, j, snap, i).0, g.heap[j].refs[i])
    decreases Unregistered(g, st), |g.heap| + 1, 0, 0
  {
    if snap[i] == Null { ConvertReach(g, st, g.heap[j].refs[i]); }
  }

  lemma {:induction false} CollectReach(g: Graph, registered: set<JId>, st: St, j: JId, i: nat)
    requires Ready(g, st) && IsLate(g, j) && j !in registered && registered <= Handles(g, st) && i <= |g.heap[j].refs|
    ensures NewViaItem(g, registered, st, Collect(g, st, j, i).0, j)
    decreases Unregistered(g, st), LateRank(g, j), 0, |g.heap[j].refs| - i
  {
    hide Convert; hide NoLateCycle; hide NewViaItem; hide ItemReached;
    if i == |g.heap[j].refs| {
      NothingVia(g, registered, st, j);
    } else {
      var r := g.heap[j].refs[i];
      RankFalls(g, j, i);
      var st1 := Convert(g, st, r).0;
      ConvertReach(g, st, r);
      UnregisteredFalls(g, st, st1);
      CollectReach(g, registered, st1, j, i + 1);
      ItemStep(g, registered, st, st1, Collect(g, st, j, i).0, j, i);
    }
  }

  // ----- all of those

  /** If x was registered by the conversion, so was each of its items. */
  lemma ItemRegistered(g: Graph, st: St, st': St, x: JId, k: JId)
    requires Sound(g, st') && NewDone(g, st, st') && x in Handles(g, st')
    requires Edge(Outside(g, Handles(g, st)), false, x, k) && !g.heap[k].kind.Native?
    ensures k in Handles(g, st')
  {
    var n := st'.handle[x];
    assert Stands(g, st', x, n) && Done(g, st', n);
    var i :| 0 <= i < |Kids(g.heap[x])| && Kids(g.heap[x])[i] == JTo(k);
    assert Rep(g, st', JTo(k), st'.objs[n].slots[i]);
  }

  lemma {:induction false} PathRegistered(g: Graph, st: St, st': St, p: seq<JId>)
    requires Sound(g, st') && NewDone(g, st, st') && IsPath(Outside(g, Handles(g, st)), false, p) && p[0] in Handles(g, st')
    requires p[|p| - 1] in g.heap && !g.heap[p[|p| - 1]].kind.Native?
    ensures p[|p| - 1] in Handles(g, st')
    decreases |p|
  {
    if |p| > 1 {
      var h := Outside(g, Handles(g, st));
      assert Edge(h, false, p[0], p[1]);
      if |p| > 2 { assert Edge(h, false, p[1], p[2]); }
      hide Sound; hide NewDone;
      ItemRegistered(g, st, st', p[0], p[1]);
      assert IsPath(h, false, p[1..]) by {
        forall i | 0 <= i < |p[1..]| - 1 ensures Edge(h, false, p[1..][i], p[1..][i + 1]) {
          assert Edge(h, false, p[i + 1], p[i + 1 + 1]);
        }
      }
      PathRegistered(g, st, st', p[1..]);
    }
  }

  lemma AllReached(g: Graph, st: St, st': St, j: JId)
    requires Sound(g, st') && NewDone(g, st, st') && j in Handles(g, st')
    ensures Reached(g, Handles(g, st), j) <= Handles(g, st')
  {
    forall k | k in Reached(g, Handles(g, st), j) ensures k in Handles(g, st') {
      var p :| IsPath(Outside(g, Handles(g, st)), false, p) && p[0] == j && p[|p| - 1] == k;
      PathRegistered(g, st, st', p);
    }
  }

  /** A conversion registers exactly what can be reached through objects without handles. */
  lemma HandlesExactly(g: Graph, st: St, r: JRef)
    requires Ready(g, st) && InHeap(g, r) && Valid(g, st) && Sound(g, st)
    ensures Handles(g, Convert(g, st, r).0) == Registered(g, Handles(g, st), r)
  {
    if Unmirrored(g, Handles(g, st), r) {
      ConvertDone(g, st, r);
      ConvertReach(g, st, r);
      var st' := Convert(g, st, r).0;
      hide Convert; hide NewDone; hide Sound;
      AllReached(g, st, st', r.j);
    }
  }

  /** The same for one round of the loop that fills a container. */
  lemma ItemHandlesExactly(g: Graph, st: St, j: JId, n: NId, snap: seq<NRef>, i: nat)
    requires Ready(g, st) && Valid(g, st) && FillReady(g, st, j, n, snap) && i < |snap|
    requires Sound(g, st) && SnapshotTrue(g, st, j, snap)
    ensures Handles(g, FillItem(g, st, j, snap, i).0) == Registered(g, Handles(g, st), g.heap[j].refs[i])
  {
    if snap[i] == Null { HandlesExactly(g, st, g.heap[j].refs[i]); }
  }

  /** Converting a late object's items registers it itself exactly if it can be reached again from them. */
  lemma ReenteredIff(g: Graph, st: St, j: JId)
    requires Ready(g, st) && Valid(g, st) && Sound(g, st) && IsLate(g, j) && j !in st.handle
    ensures j in Collect(g, st, j, 0).0.handle <==> ViaItem(Outside(g, Handles(g, st)), j, j)
  {
    var (st1, vs) := Collect(g, st, j, 0);
    var h := Outside(g, Handles(g, st));
    CollectReach(g, Handles(g, st), st, j, 0);
    CollectDone(g, st, j, 0);
    hide Collect; hide NewDone; hide Sound;
    if ViaItem(h, j, j) {
      var m :| Edge(h, false, j, m) && Reaches(h, false, m, j);
      PathEndsInHeap(h, m, j);
      var i :| 0 <= i < |Kids(g.heap[j])| && Kids(g.heap[j])[i] == JTo(m);
      assert Rep(g, st1, g.heap[j].refs[0 + i], vs[i]);
      AllReached(g, st, st1, m);
      assert j in Reached(g, Handles(g, st), m);
    }
  }
}
