/** When a conversion makes one native object for each Java object and no more: exactly when it comes to no late
    object that leads back to itself through objects not registered by then. Decided on the Java graph and the set of
    objects with handles alone, in the order of the conversion; an order-free condition implies it. */
module ConversionOnce {
  import opened Basics
  import opened JavaGraph
  import opened Conversion
  import opened ConversionGraph
  import opened ConversionReach

  // ----- the condition

  ghost predicate GraphReady(g: Graph, registered: set<JId>) { Closed(g) && NoLateCycle(g) && g.known <= registered }

  ghost function Missing(g: Graph, registered: set<JId>): nat { |g.heap.Keys - registered| }

  lemma MissingFalls(g: Graph, a: set<JId>, b: set<JId>)
    requires a <= b
    ensures Missing(g, b) <= Missing(g, a)
    ensures (exists j :: j in g.heap && j !in a && j in b) ==> Missing(g, b) < Missing(g, a)
  {
    SubsetSize(g.heap.Keys - b, g.heap.Keys - a);
  }

  lemma KidFalls(g: Graph, j: JId, i: nat)
    requires Closed(g) && NoLateCycle(g) && j in g.heap && i < |Kids(g.heap[j])|
    ensures InHeap(g, Kids(g.heap[j])[i])
    ensures Rank(g, Kids(g.heap[j])[i]) < if IsLate(g, j) then LateRank(g, j) else |g.heap| + 1
  {
    if IsLate(g, j) { RankFalls(g, j, i); }
  }

  /** Converting r enters no late object on a cycle of objects without handles. */
  ghost predicate Single(g: Graph, registered: set<JId>, r: JRef)
    requires GraphReady(g, registered) && InHeap(g, r)
    decreases Missing(g, registered), Rank(g, r), 2, 0
  {
    Unmirrored(g, registered, r) ==>
      if IsLate(g, r.j) then
        !ViaItem(Outside(g, registered), r.j, r.j) && SingleItems(g, registered, r.j, 0)
      else
        MissingFalls(g, registered, registered + {r.j});
        SingleItems(g, registered + {r.j}, r.j, 0)
  }

  /** The same for the items of j from item i on; each finds what those before it have registered. */
  ghost predicate SingleItems(g: Graph, registered: set<JId>, j: JId, i: nat)
    requires GraphReady(g, registered) && j in g.heap && i <= |Kids(g.heap[j])|
    decreases Missing(g, registered), if IsLate(g, j) then LateRank(g, j) else |g.heap| + 1, 0, |Kids(g.heap[j])| - i
  {
    i < |Kids(g.heap[j])| ==>
      var r := Kids(g.heap[j])[i];
      KidFalls(g, j, i);
      MissingFalls(g, registered, Registered(g, registered, r));
      Single(g, registered, r) && SingleItems(g, Registered(g, registered, r), j, i + 1)
  }

  // ----- the objects made

  /** Every new object is the one that its Java object's handle leads to. */
  ghost predicate MadeOnce(st: St, st': St) {
    forall n :: |st.objs| <= n < |st'.objs| && st'.objs[n].src.Some? ==>
      st'.objs[n].src.value in st'.handle && st'.handle[st'.objs[n].src.value] == n
  }

  lemma MadeOnceThen(g: Graph, a: St, b: St, c: St, k: int)
    requires NewDone(g, a, b) && NewDone(g, b, c) && Extends(a, b, k) && Extends(b, c, k) && k < |a.objs|
    ensures MadeOnce(a, c) <==> MadeOnce(a, b) && MadeOnce(b, c)
  {
    hide Done;
    forall n | |a.objs| <= n < |b.objs| ensures NewSource(g, a, b, n) && c.objs[n] == b.objs[n] { }
  }

  lemma MadeOnceSame(a: St, b: St, c: St)
    requires |c.objs| == |b.objs| && c.handle == b.handle
    requires forall n :: 0 <= n < |b.objs| ==> c.objs[n].src == b.objs[n].src
    ensures MadeOnce(a, c) <==> MadeOnce(a, b)
  {
  }

  /** A late object takes the handle from the one its own items made for it, if they did. */
  lemma LateMadeOnce(g: Graph, st0: St, st: St, j: JId, vs: seq<NRef>)
    requires Valid(g, st) && Sound(g, st) && Extends(st0, st, -1) && IsLate(g, j) && j !in st0.handle
    requires NewDone(g, st0, st) && InRange(vs, |st.objs|)
    ensures MadeOnce(st0, MakeLate(g, st, j, vs)) <==> MadeOnce(st0, st) && j !in st.handle
  {
    var st' := MakeLate(g, st, j, vs);
    MakeLateKeepsValid(g, st0, st, j, vs);
    hide MakeLate; hide Valid; hide Done;
    forall n | |st0.objs| <= n < |st.objs| ensures NewSource(g, st0, st, n) && st'.objs[n] == st.objs[n] { }
    if j in st.handle {
      assert Stands(g, st, j, st.handle[j]);
      assert st'.objs[st.handle[j]].src == Some(j) && st'.handle[j] != st.handle[j];
    }
  }

  lemma ShellMadeOnce(g: Graph, st: St, st1: St, st2: St, j: JId, n: NId)
    requires Extends(st1, st2, n) && n == |st.objs| && |st1.objs| == n + 1 && st1.objs[n].src == Some(j)
    requires j in st1.handle && st1.handle[j] == n
    ensures MadeOnce(st, st2) <==> MadeOnce(st1, st2)
  {
  }

  // ----- the conversion

  /** The conversion of r makes each object once exactly if the condition holds. */
  lemma {:induction false} ConvertMadeOnce(g: Graph, st: St, r: JRef)
    requires Ready(g, st) && InHeap(g, r) && Valid(g, st) && Sound(g, st)
    ensures MadeOnce(st, Convert(g, st, r).0) <==> Single(g, Handles(g, st), r)
    decreases Unregistered(g, st), Rank(g, r), 2, 0
  {
    if Unmirrored(g, Handles(g, st), r) { CreateMadeOnce(g, st, r.j); }
  }

  lemma {:induction false} CreateMadeOnce(g: Graph, st: St, j: JId)
    requires Ready(g, st) && j in g.heap && j !in st.handle && Valid(g, st) && Sound(g, st)
    requires !g.heap[j].kind.Native?
    ensures MadeOnce(st, Create(g, st, j).0) <==> Single(g, Handles(g, st), JTo(j))
    decreases Unregistered(g, st), LateRank(g, j), 1, 0
  {
    var o := g.heap[j];
    var keys := Handles(g, st);
    hide MadeOnce; hide Reaches; hide Edge; hide NewDone; hide Sound; hide NoLateCycle;
    if o.kind.Late? {
      var (st1, vs) := Collect(g, st, j, 0);
      CollectKeeps(g, st, j, 0);
      CollectDone(g, st, j, 0);
      CollectMadeOnce(g, st, j, 0);
      ReenteredIff(g, st, j);
      LateMadeOnce(g, st, st1, j, vs);
    } else {
      MissingFalls(g, keys, keys + {j});
      assert Single(g, keys, JTo(j)) == SingleItems(g, keys + {j}, j, 0);
      if Kids(o) == [] {
        PlainMadeOnce(g, st, j);
      } else {
        ContainerFilled(g, st, j);
        FillMadeOnce(g, MakeShell(st, j, |o.refs|), j, |st.objs|, Snapshot(g, st, o), 0);
      }
    }
  }

  /** The shell of a registered-first object, ready for the loop that fills it. */
  ghost predicate ReadyToFill(g: Graph, st: St, j: JId, st1: St) {
    && j in g.heap && Ready(g, st1) && Valid(g, st1) && FillReady(g, st1, j, |st.objs|, Snapshot(g, st, g.heap[j]))
    && Sound(g, st1) && Unregistered(g, st1) < Unregistered(g, st) && Handles(g, st1) == Handles(g, st) + {j}
    && Filled(g, st1, j, |st.objs|, 0) && SnapshotTrue(g, st1, j, Snapshot(g, st, g.heap[j]))
  }

  lemma ShellToFill(g: Graph, st: St, j: JId)
    requires Ready(g, st) && j in g.heap && j !in st.handle && Valid(g, st) && Sound(g, st)
    requires !g.heap[j].kind.Late? && Kids(g.heap[j]) != []
    ensures ReadyToFill(g, st, j, MakeShell(st, j, |g.heap[j].refs|))
  {
    ShellPreconditions(g, st, j);
    hide Sound; hide Valid; hide MakeShell; hide Snapshot; hide SnapshotTrue; hide FillReady; hide Filled; hide Ready;
    hide Closed; hide Kids; hide Unregistered;
    MakeShellKeepsValid(g, st, j, |g.heap[j].refs|);
    FillPreconditions(g, st, j);
    ShellSound(g, st, j, |g.heap[j].refs|);
    SnapshotTaken(g, st, j);
  }

  lemma ShellPreconditions(g: Graph, st: St, j: JId)
    requires Ready(g, st) && j in g.heap && j !in st.handle && Valid(g, st)
    requires !g.heap[j].kind.Late? && Kids(g.heap[j]) != []
    ensures var st1 := MakeShell(st, j, |g.heap[j].refs|);
            && Closed(g) && Ready(g, st1) && Unregistered(g, st1) < Unregistered(g, st)
            && Handles(g, st1) == Handles(g, st) + {j} && Filled(g, st1, j, |st.objs|, 0)
  {
    UnregisteredFalls(g, st, MakeShell(st, j, |g.heap[j].refs|));
  }

  /** How often a registered-first object's conversion makes objects is decided by the loop that fills it. */
  lemma ContainerFilled(g: Graph, st: St, j: JId)
    requires Ready(g, st) && j in g.heap && j !in st.handle && Valid(g, st) && Sound(g, st)
    requires !g.heap[j].kind.Late? && Kids(g.heap[j]) != []
    ensures var st1 := MakeShell(st, j, |g.heap[j].refs|);
            && ReadyToFill(g, st, j, st1)
            && (MadeOnce(st, Create(g, st, j).0)
                <==> MadeOnce(st1, Fill(g, st1, j, |st.objs|, Snapshot(g, st, g.heap[j]), 0)))
  {
    hide Sound; hide NoLateCycle; hide Fill; hide MadeOnce; hide MakeShell; hide Snapshot; hide Create;
    ShellToFill(g, st, j);
    var st1 := MakeShell(st, j, |g.heap[j].refs|);
    var st2 := Fill(g, st1, j, |st.objs|, Snapshot(g, st, g.heap[j]), 0);
    FillKeeps(g, st1, j, |st.objs|, Snapshot(g, st, g.heap[j]), 0);
    MakeShellKeepsValid(g, st, j, |g.heap[j].refs|);
    ShellMadeOnce(g, st, st1, st2, j, |st.objs|);
    FilledCreates(g, st, j);
    MadeOnceSame(st, st2, Create(g, st, j).0);
  }

  /** Leaves, truncated objects and empty containers. */
  lemma PlainMadeOnce(g: Graph, st: St, j: JId)
    requires Ready(g, st) && j in g.heap && j !in st.handle && Valid(g, st)
    requires Kids(g.heap[j]) == [] && !g.heap[j].kind.Late?
    ensures MadeOnce(st, Create(g, st, j).0)
  {
  }

  lemma {:induction false} FillMadeOnce(g: Graph, st: St, j: JId, n: NId, snap: seq<NRef>, i: nat)
    requires Ready(g, st) && Valid(g, st) && FillReady(g, st, j, n, snap) && i <= |snap|
    requires Sound(g, st) && Filled(g, st, j, n, i) && SnapshotTrue(g, st, j, snap)
    ensures MadeOnce(st, Fill(g, st, j, n, snap, i)) <==> SingleItems(g, Handles(g, st), j, i)
    decreases Unregistered(g, st), |g.heap| + 1, 1, |snap| - i
  {
    hide MadeOnce; hide Sound; hide NewDone; hide SnapshotTrue; hide Fill; hide FillItem; hide SetSlot;
    hide Valid; hide Extends; hide Unregistered; hide Registered; hide NoLateCycle; hide Closed;
    FillingOwn(g, st, j, n, i);
    hide Filled;
    if i == |snap| {
      FillEnds(g, st, j, n, snap);
      NothingMadeOnce(st);
    } else {
      var (st1, v) := FillItem(g, st, j, snap, i);
      var st2 := SetSlot(st1, n, i, v);
      FillItemKeeps(g, st, j, n, snap, i);
      FillItemDone(g, st, j, n, snap, i);
      FillItemMadeOnce(g, st, j, n, snap, i);
      ItemHandlesExactly(g, st, j, n, snap, i);
      FillFrom(g, st, j, n, snap, i);
      FillStep(g, st, st1, j, n, snap, i, v);
      FillOne(g, st, st1, j, n, snap, i, v);
      FillKeeps(g, st2, j, n, snap, i + 1);
      FillDone(g, st2, j, n, snap, i + 1);
      FillMadeOnce(g, st2, j, n, snap, i + 1);
      MadeOnceThen(g, st, st2, Fill(g, st, j, n, snap, i), n);
      SlotMadeOnce(st, st1, n, i, v);
    }
  }

  lemma FillingOwn(g: Graph, st: St, j: JId, n: NId, i: nat)
    requires Filled(g, st, j, n, i)
    ensures Kids(g.heap[j]) == g.heap[j].refs && n < |st.objs|
  {
  }

  lemma SlotMadeOnce(st: St, st1: St, n: NId, i: nat, v: NRef)
    ensures MadeOnce(st, SetSlot(st1, n, i, v)) <==> MadeOnce(st, st1)
    ensures SetSlot(st1, n, i, v).handle == st1.handle
  {
    MadeOnceSame(st, st1, SetSlot(st1, n, i, v));
  }

  lemma NothingMadeOnce(st: St)
    ensures MadeOnce(st, st)
  {
  }

  lemma {:induction false} FillItemMadeOnce(g: Graph, st: St, j: JId, n: NId, snap: seq<NRef>, i: nat)
    requires Ready(g, st) && Valid(g, st) && FillReady(g, st, j, n, snap) && i < |snap|
    requires Sound(g, st) && SnapshotTrue(g, st, j, snap) && InHeap(g, g.heap[j].refs[i])
    ensures MadeOnce(st, FillItem(g, st, j, snap, i).0) <==> Single(g, Handles(g, st), g.heap[j].refs[i])
    decreases Unregistered(g, st), |g.heap| + 1, 0, 0
  {
    if snap[i] != Null {
      NothingMadeOnce(st);
      MadeOnceSame(st, st, IncRef(st, snap[i]));
    } else {
      ConvertMadeOnce(g, st, g.heap[j].refs[i]);
    }
  }

  lemma {:induction false} CollectMadeOnce(g: Graph, st: St, j: JId, i: nat)
    requires Ready(g, st) && IsLate(g, j) && i <= |g.heap[j].refs| && Valid(g, st) && Sound(g, st)
    ensures MadeOnce(st, Collect(g, st, j, i).0) <==> SingleItems(g, Handles(g, st), j, i)
    decreases Unregistered(g, st), LateRank(g, j), 0, |g.heap[j].refs| - i
  {
    hide MadeOnce; hide Valid; hide Extends; hide Sound; hide NewDone; hide NoLateCycle;
    if i == |g.heap[j].refs| {
      NothingMadeOnce(st);
    } else {
      var r := g.heap[j].refs[i];
      SingleNext(g, Handles(g, st), j, i);
      OneCollected(g, st, j, i);
      ConvertMadeOnce(g, st, r);
      hide SingleItems; hide Single; hide Collect; hide Convert; hide Registered; hide Closed; hide Ready; hide Unregistered;
      CollectMadeOnce(g, Convert(g, st, r).0, j, i + 1);
    }
  }

  lemma SingleNext(g: Graph, registered: set<JId>, j: JId, i: nat)
    requires GraphReady(g, registered) && j in g.heap && i < |Kids(g.heap[j])|
    ensures var r := Kids(g.heap[j])[i];
            && InHeap(g, r) && GraphReady(g, Registered(g, registered, r))
            && (SingleItems(g, registered, j, i) <==>
                  Single(g, registered, r) && SingleItems(g, Registered(g, registered, r), j, i + 1))
  {
    KidFalls(g, j, i);
  }

  /** One item of a late object is converted. */
  lemma OneCollected(g: Graph, st: St, j: JId, i: nat)
    requires Ready(g, st) && IsLate(g, j) && i < |g.heap[j].refs| && Valid(g, st) && Sound(g, st)
    requires InHeap(g, g.heap[j].refs[i])
    ensures var st1 := Convert(g, st, g.heap[j].refs[i]).0;
            && Rank(g, g.heap[j].refs[i]) < LateRank(g, j)
            && Ready(g, st1) && Valid(g, st1) && Sound(g, st1) && Unregistered(g, st1) <= Unregistered(g, st)
            && Handles(g, st1) == Registered(g, Handles(g, st), g.heap[j].refs[i])
            && (MadeOnce(st, Collect(g, st, j, i).0) <==>
                  MadeOnce(st, st1) && MadeOnce(st1, Collect(g, st1, j, i + 1).0))
  {
    hide MadeOnce; hide Valid; hide Extends; hide Sound; hide NewDone; hide NoLateCycle;
    var r := g.heap[j].refs[i];
    RankFalls(g, j, i);
    var st1 := Convert(g, st, r).0;
    ConvertKeeps(g, st, r);
    ConvertDone(g, st, r);
    HandlesExactly(g, st, r);
    UnregisteredFalls(g, st, st1);
    hide Convert; hide Registered; hide Closed;
    CollectKeeps(g, st1, j, i + 1);
    CollectDone(g, st1, j, i + 1);
    MadeOnceThen(g, st, st1, Collect(g, st, j, i).0, -1);
  }

  // ----- a condition that does not depend on the order of items

  /** The objects on a path that are registered before their items are converted. */
  ghost function Firsts(g: Graph, p: seq<JId>): set<JId> { set j | j in p && !IsLate(g, j) }

  /** Whatever way from r leads to a late object, each cycle of the late object meets a registered object or a
      registered-first object on that way. */
  ghost predicate Guarded(g: Graph, registered: set<JId>, r: JRef) {
    forall p :: r.JTo? && IsPath(Outside(g, registered), false, p) && p[0] == r.j && IsLate(g, p[|p| - 1]) ==>
      !ViaItem(Outside(g, registered + Firsts(g, p)), p[|p| - 1], p[|p| - 1])
  }

  lemma GuardedLater(g: Graph, a: set<JId>, b: set<JId>, r: JRef)
    requires a <= b && Guarded(g, a, r)
    ensures Guarded(g, b, r)
  {
    forall p | r.JTo? && IsPath(Outside(g, b), false, p) && p[0] == r.j && IsLate(g, p[|p| - 1])
      ensures !ViaItem(Outside(g, b + Firsts(g, p)), p[|p| - 1], p[|p| - 1])
    {
      PathOutside(g, false, a, b, p);
      var j := p[|p| - 1];
      if ViaItem(Outside(g, b + Firsts(g, p)), j, j) {
        ViaItemOutside(g, a + Firsts(g, p), b + Firsts(g, p), j, j);
      }
    }
  }

  lemma GuardedItem(g: Graph, registered: set<JId>, j: JId, i: nat)
    requires Guarded(g, registered, JTo(j)) && j in g.heap && j !in registered && i < |Kids(g.heap[j])|
    requires InHeap(g, Kids(g.heap[j])[i])
    ensures Guarded(g, if IsLate(g, j) then registered else registered + {j}, Kids(g.heap[j])[i])
  {
    var r := Kids(g.heap[j])[i];
    var after := if IsLate(g, j) then registered else registered + {j};
    forall p | r.JTo? && IsPath(Outside(g, after), false, p) && p[0] == r.j && IsLate(g, p[|p| - 1])
      ensures !ViaItem(Outside(g, after + Firsts(g, p)), p[|p| - 1], p[|p| - 1])
    {
      PathOutside(g, false, registered, after, p);
      var q := [j] + p;
      var h := Outside(g, registered);
      forall k | 0 <= k < |q| - 1 ensures Edge(h, false, q[k], q[k + 1]) {
        if k > 0 { assert q[k] == p[k - 1] && q[k + 1] == p[k - 1 + 1]; }
      }
      assert IsPath(h, false, q) && q[|q| - 1] == p[|p| - 1];
      assert registered + Firsts(g, q) == after + Firsts(g, p);
    }
  }

  lemma {:induction false} GuardedSingle(g: Graph, registered: set<JId>, r: JRef)
    requires GraphReady(g, registered) && InHeap(g, r) && Guarded(g, registered, r)
    ensures Single(g, registered, r)
    decreases Missing(g, registered), Rank(g, r), 2, 0
  {
    if Unmirrored(g, registered, r) {
      hide Guarded; hide NoLateCycle; hide Reaches;
      if IsLate(g, r.j) {
        GuardedHere(g, registered, r.j);
        GuardedItems(g, registered, registered, r.j, 0);
      } else {
        MissingFalls(g, registered, registered + {r.j});
        GuardedItems(g, registered, registered + {r.j}, r.j, 0);
      }
    }
  }

  lemma GuardedHere(g: Graph, registered: set<JId>, j: JId)
    requires Guarded(g, registered, JTo(j)) && IsLate(g, j)
    ensures !ViaItem(Outside(g, registered), j, j)
  {
    assert IsPath(Outside(g, registered), false, [j]);
    assert registered + Firsts(g, [j]) == registered;
  }

  lemma {:induction false} GuardedItems(g: Graph, before: set<JId>, registered: set<JId>, j: JId, i: nat)
    requires GraphReady(g, before) && GraphReady(g, registered) && j in g.heap && j !in before
    requires before + (if IsLate(g, j) then {} else {j}) <= registered
    requires Guarded(g, before, JTo(j)) && i <= |Kids(g.heap[j])|
    ensures SingleItems(g, registered, j, i)
    decreases Missing(g, registered), if IsLate(g, j) then LateRank(g, j) else |g.heap| + 1, 0, |Kids(g.heap[j])| - i
  {
    hide Guarded; hide NoLateCycle;
    if i < |Kids(g.heap[j])| {
      var r := Kids(g.heap[j])[i];
      KidFalls(g, j, i);
      MissingFalls(g, registered, Registered(g, registered, r));
      GuardedItem(g, before, j, i);
      GuardedLater(g, if IsLate(g, j) then before else before + {j}, registered, r);
      GuardedSingle(g, registered, r);
      GuardedItems(g, before, Registered(g, registered, r), j, i + 1);
    }
  }

  /** No late object on a cycle. */
  lemma NoLateOnCycleGuarded(g: Graph, registered: set<JId>, r: JRef)
    requires NoLateOnCycle(g) && g.known <= registered
    ensures Guarded(g, registered, r)
  {
    forall p | r.JTo? && IsPath(Outside(g, registered), false, p) && p[0] == r.j && IsLate(g, p[|p| - 1])
      ensures !ViaItem(Outside(g, registered + Firsts(g, p)), p[|p| - 1], p[|p| - 1])
    {
      var j := p[|p| - 1];
      if ViaItem(Outside(g, registered + Firsts(g, p)), j, j) {
        ViaItemOutside(g, g.known, registered + Firsts(g, p), j, j);
      }
    }
  }

  /** A start at a registered-first object that every cycle of a late object passes through. */
  lemma StartGuarded(g: Graph, registered: set<JId>, j: JId)
    requires j in g.heap && !g.heap[j].kind.Late?
    requires forall k :: IsLate(g, k) ==> !ViaItem(Outside(g, registered + {j}), k, k)
    ensures Guarded(g, registered, JTo(j))
  {
    forall p | IsPath(Outside(g, registered), false, p) && p[0] == j && IsLate(g, p[|p| - 1])
      ensures !ViaItem(Outside(g, registered + Firsts(g, p)), p[|p| - 1], p[|p| - 1])
    {
      var k := p[|p| - 1];
      assert j in Firsts(g, p);
      if ViaItem(Outside(g, registered + Firsts(g, p)), k, k) {
        ViaItemOutside(g, registered + {j}, registered + Firsts(g, p), k, k);
      }
    }
  }
}
