/** Reference counts through a whole conversion: every count is accounted for by the slots that hold the object,
    the weak-reference backends, the constructors' caches, the returned reference, and the references that the
    constructors of late objects leave behind. */
module ConversionCounts {
  import opened Basics
  import opened JavaGraph
  import opened Conversion

  function Is(v: NRef, n: NId): nat { if v == To(n) then 1 else 0 }

  /** Occurrences of n in a slot list. */
  function Occ(vs: seq<NRef>, n: NId): nat {
    if vs == [] then 0 else Occ(vs[..|vs| - 1], n) + Is(vs[|vs| - 1], n)
  }

  /** Slots holding n, in all objects or in leaky ones only. */
  function Slots(objs: seq<NObj>, n: NId, leakyOnly: bool): nat {
    if objs == [] then 0
    else
      var o := objs[|objs| - 1];
      Slots(objs[..|objs| - 1], n, leakyOnly) + if o.leaky || !leakyOnly then Occ(o.slots, n) else 0
  }

  /** What accounts for references to n apart from those in flight. */
  function Held(st: St, n: NId): int {
    Slots(st.objs, n, false) + Slots(st.objs, n, true)
    + (if n < |st.weakOwned| then st.weakOwned[n] else 0) + if n in st.shared.Values then 1 else 0
  }

  /** References to n in flight: returned or held in C variables. */
  function InFlight(st: St, n: NId): int { (if n < |st.counts| then st.counts[n] else 0) - Held(st, n) }

  /** The change puts exactly the references vs into flight. */
  ghost predicate Gains(st: St, st': St, vs: seq<NRef>) {
    forall n :: InFlight(st', n) == InFlight(st, n) + Occ(vs, n)
  }

  // ----- counting

  lemma OccOne(v: NRef, n: NId)
    ensures Occ([v], n) == Is(v, n)
  {
    assert [v][..0] == [];
  }

  lemma {:induction false} OccNulls(k: nat, n: NId)
    ensures Occ(Nulls(k), n) == 0
  {
    if k > 0 {
      assert Nulls(k)[..k - 1] == Nulls(k - 1);
      OccNulls(k - 1, n);
    }
  }

  lemma {:induction false} OccUpdate(vs: seq<NRef>, i: nat, v: NRef, n: NId)
    requires i < |vs|
    ensures Occ(vs[i := v], n) == Occ(vs, n) - Is(vs[i], n) + Is(v, n)
    decreases |vs|
  {
    var last := |vs| - 1;
    if i == last {
      assert vs[i := v][..last] == vs[..last];
    } else {
      assert vs[i := v][..last] == vs[..last][i := v];
      OccUpdate(vs[..last], i, v, n);
    }
  }

  lemma {:induction false} OccConcat(us: seq<NRef>, vs: seq<NRef>, n: NId)
    ensures Occ(us + vs, n) == Occ(us, n) + Occ(vs, n)
    decreases |vs|
  {
    if vs == [] {
      assert us + vs == us;
    } else {
      assert (us + vs)[..|us + vs| - 1] == us + vs[..|vs| - 1];
      OccConcat(us, vs[..|vs| - 1], n);
    }
  }

  lemma {:induction false} OccOutOfRange(vs: seq<NRef>, size: nat, n: NId)
    requires InRange(vs, size) && n >= size
    ensures Occ(vs, n) == 0
    decreases |vs|
  {
    if vs != [] { OccOutOfRange(vs[..|vs| - 1], size, n); }
  }

  lemma SlotsSnoc(objs: seq<NObj>, o: NObj, n: NId, leakyOnly: bool)
    ensures Slots(objs + [o], n, leakyOnly)
            == Slots(objs, n, leakyOnly) + if o.leaky || !leakyOnly then Occ(o.slots, n) else 0
  {
    assert (objs + [o])[..|objs|] == objs;
  }

  lemma {:induction false} SlotsUpdate(objs: seq<NObj>, m: nat, o: NObj, n: NId, leakyOnly: bool)
    requires m < |objs| && o.leaky == objs[m].leaky
    ensures Slots(objs[m := o], n, leakyOnly) == Slots(objs, n, leakyOnly)
            + if o.leaky || !leakyOnly then Occ(o.slots, n) - Occ(objs[m].slots, n) else 0
    decreases |objs|
  {
    var last := |objs| - 1;
    if m == last {
      assert objs[m := o][..last] == objs[..last];
    } else {
      assert objs[m := o][..last] == objs[..last][m := o];
      SlotsUpdate(objs[..last], m, o, n, leakyOnly);
    }
  }

  lemma {:induction false} SlotsOutOfRange(objs: seq<NObj>, size: nat, n: NId, leakyOnly: bool)
    requires forall m :: 0 <= m < |objs| ==> InRange(objs[m].slots, size)
    requires n >= size
    ensures Slots(objs, n, leakyOnly) == 0
    decreases |objs|
  {
    if objs != [] {
      OccOutOfRange(objs[|objs| - 1].slots, size, n);
      SlotsOutOfRange(objs[..|objs| - 1], size, n, leakyOnly);
    }
  }

  /** An address not yet used has no references in flight. */
  lemma UnusedAddress(g: Graph, st: St, n: NId)
    requires Valid(g, st) && n >= |st.objs|
    ensures InFlight(st, n) == 0
  {
    SlotsOutOfRange(st.objs, |st.objs|, n, false);
    SlotsOutOfRange(st.objs, |st.objs|, n, true);
  }

  // ----- single steps

  lemma IncRefGains(g: Graph, st: St, v: NRef)
    requires Valid(g, st) && ValidRef(st, v)
    ensures Gains(st, IncRef(st, v), [v])
  {
    forall n ensures InFlight(IncRef(st, v), n) == InFlight(st, n) + Occ([v], n) { OccOne(v, n); }
  }

  lemma {:induction false} IncRefsGains(g: Graph, st: St, vs: seq<NRef>)
    requires Valid(g, st) && InRange(vs, |st.objs|)
    ensures Gains(st, IncRefs(st, vs), vs)
    decreases |vs|
  {
    if vs != [] {
      var us, v := vs[..|vs| - 1], vs[|vs| - 1];
      IncRefsGains(g, st, us);
      var st1 := IncRefs(st, us);
      forall n ensures InFlight(IncRef(st1, v), n) == InFlight(st1, n) + Is(v, n) { }
    }
  }

  lemma FinishGains(g: Graph, st: St, j: JId, n: NId)
    requires Valid(g, st) && n < |st.objs|
    ensures Gains(st, Finish(g, st, j, n), [])
  {
  }

  lemma RegisterGains(st: St, j: JId, n: NId)
    ensures Gains(st, Register(st, j, n), [])
  {
  }

  lemma NewGains(g: Graph, st: St, o: NObj, count: int, m: NId)
    requires Valid(g, st) && InRange(o.slots, |st.objs|)
    ensures InFlight(New(st, o, count), m) == InFlight(st, m) + (if m == |st.objs| then count else 0)
            - Occ(o.slots, m) - if o.leaky then Occ(o.slots, m) else 0
  {
    SlotsSnoc(st.objs, o, m, false);
    SlotsSnoc(st.objs, o, m, true);
    if m >= |st.objs| { OccOutOfRange(o.slots, |st.objs|, m); }
  }

  lemma SetSlotGains(st: St, n: NId, i: nat, v: NRef, m: NId)
    requires n < |st.objs| && i < |st.objs[n].slots| && st.objs[n].slots[i] == Null && !st.objs[n].leaky
    ensures InFlight(SetSlot(st, n, i, v), m) == InFlight(st, m) - Is(v, m)
  {
    var o := st.objs[n].(slots := st.objs[n].slots[i := v]);
    OccUpdate(st.objs[n].slots, i, v, m);
    SlotsUpdate(st.objs, n, o, m, false);
    SlotsUpdate(st.objs, n, o, m, true);
  }

  lemma GainsOne(st: St, st': St, n: NId)
    requires forall m :: InFlight(st', m) == InFlight(st, m) + Is(To(n), m)
    ensures Gains(st, st', [To(n)])
  {
    forall m ensures InFlight(st', m) == InFlight(st, m) + Occ([To(n)], m) { OccOne(To(n), m); }
  }

  lemma TakeSharedGains(g: Graph, st: St, c: Constant)
    requires Valid(g, st)
    ensures var (st1, n) := TakeShared(st, c); Gains(st, st1, [To(n)])
  {
    if c in st.shared {
      IncRefGains(g, st, To(st.shared[c]));
    } else {
      var o := NObj(None, [], false);
      var st1 := TakeShared(st, c).0;
      assert st1.shared.Values == st.shared.Values + {|st.objs|} by {
        assert forall d :: d in st.shared ==> st1.shared[d] == st.shared[d];
        assert st1.shared[c] == |st.objs|;
      }
      forall m ensures InFlight(st1, m) == InFlight(st, m) + Is(To(|st.objs|), m) {
        NewGains(g, st, o, 2, m);
      }
      GainsOne(st, st1, |st.objs|);
    }
  }

  /** Registering and the weak-reference backend put nothing into flight. */
  lemma ConstantGains(g: Graph, st: St, j: JId, c: Constant)
    requires Valid(g, st) && j !in st.handle
    ensures var (st', n) := MakeConstant(g, st, j, c); Gains(st, st', [To(n)])
  {
    var (st1, n) := TakeShared(st, c);
    TakeSharedKeepsValid(g, st, c);
    TakeSharedGains(g, st, c);
    var st2 := RegisterShared(st1, c, j, n);
    RegisterSharedKeepsValid(g, st1, c, j, n);
    assert Gains(st1, st2, []);
    FinishGains(g, st2, j, n);
    hide Gains; hide TakeShared; hide RegisterShared; hide Finish;
    ThenNothing(st, st1, st2, [To(n)]);
    ThenNothing(st, st2, Finish(g, st2, j, n), [To(n)]);
  }

  lemma MakeShellGains(g: Graph, st: St, j: JId, size: nat)
    requires Valid(g, st)
    ensures Gains(st, MakeShell(st, j, size), [To(|st.objs|)])
  {
    var o := NObj(Some(j), Nulls(size), false);
    var st1 := New(st, o, 1);
    forall m ensures InFlight(MakeShell(st, j, size), m) == InFlight(st, m) + Is(To(|st.objs|), m) {
      NewGains(g, st, o, 1, m);
      OccNulls(size, m);
      RegisterGains(st1, j, |st.objs|);
      assert InFlight(MakeShell(st, j, size), m) == InFlight(st1, m) + Occ([], m);
    }
    GainsOne(st, MakeShell(st, j, size), |st.objs|);
  }

  /** Creating a late object takes its items out of flight; the leak is accounted for by its slots. */
  lemma MakeLateGains(g: Graph, st0: St, st: St, j: JId, vs: seq<NRef>)
    requires Valid(g, st) && j in g.heap && g.heap[j].kind.Late? && InRange(vs, |st.objs|) && Gains(st0, st, vs)
    ensures Gains(st0, MakeLate(g, st, j, vs), [To(|st.objs|)])
  {
    var o := NObj(Some(j), vs, Borrows(g.heap[j].kind.what));
    var n := |st.objs|;
    var st1 := New(st, o, 1);
    NewKeepsValid(g, st, o, 1);
    var st2 := if o.leaky then IncRefs(st1, vs) else st1;
    var st3 := Register(st2, j, n);
    RegisterKeepsValid(g, st2, j, n);
    if o.leaky { IncRefsGains(g, st1, vs); }
    RegisterGains(st2, j, n);
    FinishGains(g, st3, j, n);
    hide InFlight;
    forall m ensures InFlight(MakeLate(g, st, j, vs), m) == InFlight(st0, m) + Is(To(n), m) {
      NewGains(g, st, o, 1, m);
      assert InFlight(Finish(g, st3, j, n), m) == InFlight(st3, m) + Occ([], m);
      assert InFlight(st3, m) == InFlight(st2, m) + Occ([], m);
      assert InFlight(st, m) == InFlight(st0, m) + Occ(vs, m);
      assert o.leaky ==> InFlight(st2, m) == InFlight(st1, m) + Occ(vs, m);
    }
    GainsOne(st0, MakeLate(g, st, j, vs), n);
  }

  lemma GainsThen(a: St, b: St, c: St, us: seq<NRef>, vs: seq<NRef>)
    requires Gains(a, b, us) && Gains(b, c, vs)
    ensures Gains(a, c, us + vs)
  {
    hide InFlight;
    forall n ensures InFlight(c, n) == InFlight(a, n) + Occ(us + vs, n) { OccConcat(us, vs, n); }
  }

  // ----- the conversion

  lemma {:induction false} ConvertGains(g: Graph, st: St, r: JRef)
    requires Ready(g, st) && InHeap(g, r) && Valid(g, st)
    ensures var (st', v) := Convert(g, st, r); Gains(st, st', [v])
    decreases Unregistered(g, st), Rank(g, r), 2, 0
  {
    hide InFlight;
    if r.JTo? {
      if g.heap[r.j].kind.Native? { IncRefGains(g, st, To(g.heap[r.j].kind.n)); }
      else if r.j in st.handle { IncRefGains(g, st, To(st.handle[r.j])); }
      else { CreateGains(g, st, r.j); }
    } else {
      forall n ensures Occ([Null], n) == 0 { OccOne(Null, n); }
    }
  }

  lemma {:induction false} CreateGains(g: Graph, st: St, j: JId)
    requires Ready(g, st) && j in g.heap && j !in st.handle && Valid(g, st)
    ensures var (st', n) := Create(g, st, j); Gains(st, st', [To(n)])
    decreases Unregistered(g, st), LateRank(g, j), 1, 0
  {
    var o := g.heap[j];
    hide Gains;
    if o.kind.Late? {
      CollectKeeps(g, st, j, 0);
      CollectGains(g, st, j, 0);
      var (st1, vs) := Collect(g, st, j, 0);
      MakeLateGains(g, st, st1, j, vs);
    } else if ConstantOf(o).Some? {
      ConstantGains(g, st, j, ConstantOf(o).value);
    } else {
      var size := if Kids(o) == [] then 0 else |o.refs|;
      var n := |st.objs|;
      var st1 := MakeShell(st, j, size);
      MakeShellKeepsValid(g, st, j, size);
      MakeShellGains(g, st, j, size);
      if Kids(o) == [] {
        FinishGains(g, st1, j, n);
        ThenNothing(st, st1, Finish(g, st1, j, n), [To(n)]);
      } else {
        UnregisteredFalls(g, st, st1);
        FillPreconditions(g, st, j);
        var snap := Snapshot(g, st, o);
        var st2 := Fill(g, st1, j, n, snap, 0);
        FillKeeps(g, st1, j, n, snap, 0);
        FillGains(g, st1, j, n, snap, 0);
        FinishGains(g, st2, j, n);
        ThenNothing(st, st1, st2, [To(n)]);
        ThenNothing(st, st2, Finish(g, st2, j, n), [To(n)]);
      }
    }
  }

  lemma ThenNothing(a: St, b: St, c: St, us: seq<NRef>)
    requires Gains(a, b, us) && Gains(b, c, [])
    ensures Gains(a, c, us)
  {
    GainsThen(a, b, c, us, []);
    assert us + [] == us;
  }

  /** From slot i on the shell is still empty. */
  ghost predicate EmptyFrom(st: St, n: NId, i: nat) {
    n < |st.objs| && !st.objs[n].leaky && forall k :: i <= k < |st.objs[n].slots| ==> st.objs[n].slots[k] == Null
  }

  lemma FillSlotGains(g: Graph, st: St, st1: St, n: NId, i: nat, v: NRef)
    requires Valid(g, st) && Extends(st, st1, -1) && Gains(st, st1, [v])
    requires EmptyFrom(st, n, i) && i < |st.objs[n].slots|
    ensures Gains(st, SetSlot(st1, n, i, v), []) && EmptyFrom(SetSlot(st1, n, i, v), n, i + 1)
  {
    hide InFlight;
    forall m ensures InFlight(SetSlot(st1, n, i, v), m) == InFlight(st, m) + Occ([], m) {
      SetSlotGains(st1, n, i, v, m);
      OccOne(v, m);
    }
  }

  lemma {:induction false} FillGains(g: Graph, st: St, j: JId, n: NId, snap: seq<NRef>, i: nat)
    requires Ready(g, st) && Valid(g, st) && FillReady(g, st, j, n, snap) && i <= |snap| && EmptyFrom(st, n, i)
    ensures Gains(st, Fill(g, st, j, n, snap, i), [])
    decreases Unregistered(g, st), |g.heap| + 1, 1, |snap| - i
  {
    hide InFlight; hide EmptyFrom; hide Gains; hide Fill; hide Valid; hide Extends; hide FillItem; hide SetSlot;
    hide Ready; hide Unregistered;
    if i < |snap| {
      var (st1, v) := FillItem(g, st, j, snap, i);
      var st2 := SetSlot(st1, n, i, v);
      FillItemKeeps(g, st, j, n, snap, i);
      FillItemGains(g, st, j, n, snap, i);
      FillFrom(g, st, j, n, snap, i);
      FillStep(g, st, st1, j, n, snap, i, v);
      FillSlotGains(g, st, st1, n, i, v);
      FillGains(g, st2, j, n, snap, i + 1);
      ThenNothing(st, st2, Fill(g, st, j, n, snap, i), []);
    } else {
      FillEnds(g, st, j, n, snap);
      GainsNothing(st);
    }
  }

  lemma GainsNothing(st: St)
    ensures Gains(st, st, [])
  {
  }

  lemma {:induction false} FillItemGains(g: Graph, st: St, j: JId, n: NId, snap: seq<NRef>, i: nat)
    requires Ready(g, st) && Valid(g, st) && FillReady(g, st, j, n, snap) && i < |snap|
    ensures var (st', v) := FillItem(g, st, j, snap, i); Gains(st, st', [v])
    decreases Unregistered(g, st), |g.heap| + 1, 0, 0
  {
    if snap[i] != Null { IncRefGains(g, st, snap[i]); } else { ConvertGains(g, st, g.heap[j].refs[i]); }
  }

  lemma {:induction false} CollectGains(g: Graph, st: St, j: JId, i: nat)
    requires Ready(g, st) && IsLate(g, j) && i <= |g.heap[j].refs| && Valid(g, st)
    ensures var (st', vs) := Collect(g, st, j, i); Gains(st, st', vs)
    decreases Unregistered(g, st), LateRank(g, j), 0, |g.heap[j].refs| - i
  {
    hide InFlight;
    if i < |g.heap[j].refs| {
      var r := g.heap[j].refs[i];
      RankFalls(g, j, i);
      var (st1, v) := Convert(g, st, r);
      ConvertKeeps(g, st, r);
      ConvertGains(g, st, r);
      UnregisteredFalls(g, st, st1);
      hide Gains;
      CollectGains(g, st1, j, i + 1);
      var (st2, vs) := Collect(g, st1, j, i + 1);
      GainsThen(st, st1, st2, [v], vs);
    }
  }

  // ----- the theorem

  /** Reference counts after converting r. A new object is referenced once per slot holding it, once for a
      cache if a constructor shares it, once per weak-reference backend, once more if it is the
      result -- and once more per slot of a late object whose constructor borrowed the item. An object that
      existed before gains what its new holders account for. */
  lemma CountsConserved(g: Graph, st: St, r: JRef, n: NId)
    requires Ready(g, st) && InHeap(g, r) && Valid(g, st)
    ensures var (st', v) := Convert(g, st, r);
            && (|st.objs| <= n < |st'.objs| ==>
                  |st'.counts| == |st'.objs| && st'.counts[n] == Held(st', n) + Is(v, n))
            && (n < |st.objs| ==>
                  n < |st'.counts| && st'.counts[n] - st.counts[n] == Held(st', n) - Held(st, n) + Is(v, n))
  {
    ConvertKeeps(g, st, r);
    ConvertGains(g, st, r);
    OccOne(Convert(g, st, r).1, n);
    if n >= |st.objs| { UnusedAddress(g, st, n); }
    hide Convert;
    assert InFlight(Convert(g, st, r).0, n) == InFlight(st, n) + Occ([Convert(g, st, r).1], n);
  }
}
