/** What the converted objects mean: every native object has the items of its Java object, converted in turn, so
    the native graph unfolds like the Java graph; and when no late object lies on a cycle, every object is
    created once, so that sharing and cycles are those of the Java graph. */
module ConversionGraph {
  import opened Basics
  import opened JavaGraph
  import opened Conversion

  /** All empty tuples share one native object; so do small ints and one-letter strings of one value. */
  predicate IsConstant(g: Graph, j: JId) { j in g.heap && ConstantOf(g.heap[j]).Some? }

  /** Native object n stands for Java object j. */
  ghost predicate Stands(g: Graph, st: St, j: JId, n: NId) {
    n < |st.objs| && (st.objs[n].src == Some(j)
                      || (IsConstant(g, j) && var c := ConstantOf(g.heap[j]).value; c in st.shared && st.shared[c] == n))
  }

  /** A small int or one-letter string whose shared object has a handle flag: it gets no handle itself. */
  predicate FlaggedLeaf(g: Graph, st: St, j: JId) {
    j in g.heap && g.heap[j].kind.Cached? && Value(g.heap[j].kind.v) in st.flagged
  }

  ghost predicate Rep(g: Graph, st: St, r: JRef, v: NRef) {
    match r
    case JNull => v == Null
    case JTo(j) =>
      j in g.heap && v.To?
      && if g.heap[j].kind.Native? then v.n == g.heap[j].kind.n else (j in st.handle || FlaggedLeaf(g, st, j)) && Stands(g, st, j, v.n)
  }

  /** Handles lead to objects that stand for their Java objects. */
  ghost predicate Sound(g: Graph, st: St) {
    forall j :: j in st.handle && j in g.heap && !g.heap[j].kind.Native? ==> Stands(g, st, j, st.handle[j])
  }

  /** The constructor of the object takes references of its own to its items. */
  predicate Borrowing(g: Graph, src: Option<JId>) {
    src.Some? && src.value in g.heap && g.heap[src.value].kind.Late? && Borrows(g.heap[src.value].kind.what)
  }

  /** The items of n are the converted items of its Java object, borrowed if its constructor does. */
  ghost predicate Done(g: Graph, st: St, n: NId) {
    && n < |st.objs| && st.objs[n].leaky == Borrowing(g, st.objs[n].src)
    && (st.objs[n].src.Some? && st.objs[n].src.value in g.heap ==>
      var kids := Kids(g.heap[st.objs[n].src.value]);
      && |st.objs[n].slots| == |kids|
      && forall i :: 0 <= i < |kids| ==> Rep(g, st, kids[i], st.objs[n].slots[i]))
  }

  /** An object is made for a Java object that had no handle before and has one now. */
  ghost predicate NewSource(g: Graph, st: St, st': St, n: NId) {
    n < |st'.objs| && (st'.objs[n].src.Some? ==>
      var j := st'.objs[n].src.value; j in g.heap && j in st'.handle && j !in st.handle)
  }

  /** New objects are done, and new handles lead to new or to shared objects. */
  ghost predicate NewDone(g: Graph, st: St, st': St) {
    && (forall n :: |st.objs| <= n < |st'.objs| ==> Done(g, st', n) && NewSource(g, st, st', n))
    && (forall j :: j in st'.handle && j !in st.handle ==> st'.handle[j] >= |st.objs| || IsConstant(g, j))
  }

  lemma StandsStays(g: Graph, st: St, st': St, k: int, j: JId, n: NId)
    requires Extends(st, st', k) && Stands(g, st, j, n)
    ensures Stands(g, st', j, n)
  {
  }

  lemma RepStays(g: Graph, st: St, st': St, k: int, r: JRef, v: NRef)
    requires Extends(st, st', k) && Rep(g, st, r, v)
    ensures Rep(g, st', r, v)
  {
    if r.JTo? && !g.heap[r.j].kind.Native? { StandsStays(g, st, st', k, r.j, v.n); }
  }

  lemma DoneStays(g: Graph, st: St, st': St, k: int, n: NId)
    requires Extends(st, st', k) && Done(g, st, n) && n != k
    ensures Done(g, st', n)
  {
    hide Rep;
    if st.objs[n].src.Some? && st.objs[n].src.value in g.heap {
      var kids := Kids(g.heap[st.objs[n].src.value]);
      forall i | 0 <= i < |kids| ensures Rep(g, st', kids[i], st'.objs[n].slots[i]) {
        RepStays(g, st, st', k, kids[i], st.objs[n].slots[i]);
      }
    }
  }

  /** Soundness needs checking for handles that are new or changed only. */
  lemma SoundStays(g: Graph, st: St, st': St, k: int)
    requires Sound(g, st) && Extends(st, st', k)
    requires forall j :: j in st'.handle && j !in st.handle && j in g.heap && !g.heap[j].kind.Native? ==>
               Stands(g, st', j, st'.handle[j])
    ensures Sound(g, st')
  {
    forall j | j in st'.handle && j in g.heap && !g.heap[j].kind.Native?
      ensures Stands(g, st', j, st'.handle[j])
    {
      if j in st.handle { StandsStays(g, st, st', k, j, st.handle[j]); }
    }
  }

  lemma NewDoneThen(g: Graph, a: St, b: St, c: St, k: int)
    requires NewDone(g, a, b) && NewDone(g, b, c) && Extends(a, b, k) && Extends(b, c, k) && k < |a.objs|
    ensures NewDone(g, a, c)
  {
    hide Done;
    forall n | |a.objs| <= n < |c.objs| ensures Done(g, c, n) && NewSource(g, a, c, n) {
      if n < |b.objs| { DoneStays(g, b, c, k, n); assert NewSource(g, a, b, n); } else { assert NewSource(g, b, c, n); }
    }
  }

  // ----- one object

  lemma MakeLateDone(g: Graph, st0: St, st: St, j: JId, vs: seq<NRef>)
    requires Valid(g, st) && Sound(g, st) && Extends(st0, st, -1) && IsLate(g, j) && j !in st0.handle
    requires |vs| == |g.heap[j].refs| && InRange(vs, |st.objs|) && NewDone(g, st0, st)
    requires AllRep(g, st, j, 0, vs)
    ensures var st' := MakeLate(g, st, j, vs);
            Sound(g, st') && NewDone(g, st0, st') && Stands(g, st', j, |st.objs|)
  {
    var st' := MakeLate(g, st, j, vs);
    MakeLateKeepsValid(g, st0, st, j, vs);
    hide MakeLate;
    forall m: NId, q: JId | m < |st.objs| && Stands(g, st, q, m) ensures Stands(g, st', q, m) { }
    assert Sound(g, st');
    forall r, v | Rep(g, st, r, v) ensures Rep(g, st', r, v) { }
    forall n | |st0.objs| <= n < |st'.objs| ensures Done(g, st', n) && NewSource(g, st0, st', n) {
      if n < |st.objs| { assert Done(g, st, n) && NewSource(g, st0, st, n); }
    }
  }

  lemma ShellSound(g: Graph, st: St, j: JId, size: nat)
    requires Valid(g, st) && Sound(g, st) && j !in st.handle && j in g.heap && !IsConstant(g, j)
    ensures Sound(g, MakeShell(st, j, size)) && Stands(g, MakeShell(st, j, size), j, |st.objs|)
  {
    MakeShellKeepsValid(g, st, j, size);
    hide MakeShell;
    SoundStays(g, st, MakeShell(st, j, size), -1);
  }

  lemma FinishChangesCountsOnly(g: Graph, st: St, j: JId, n: NId)
    ensures var st' := Finish(g, st, j, n); st'.objs == st.objs && st'.handle == st.handle && st'.shared == st.shared && st'.flagged == st.flagged
  {
  }

  /** Only objects, handles and shared objects matter here. */
  lemma SameView(g: Graph, st: St, st': St)
    requires st'.objs == st.objs && st'.handle == st.handle && st'.shared == st.shared && st'.flagged == st.flagged
    ensures Sound(g, st') == Sound(g, st)
    ensures forall n :: Done(g, st', n) == Done(g, st, n)
    ensures forall r, v :: Rep(g, st', r, v) == Rep(g, st, r, v)
  {
    assert forall j, n :: Stands(g, st', j, n) == Stands(g, st, j, n);
    forall n ensures Done(g, st', n) == Done(g, st, n) { }
  }

  lemma NothingNew(g: Graph, st: St, v: NRef)
    requires Valid(g, st) && Sound(g, st)
    ensures Sound(g, IncRef(st, v)) && NewDone(g, st, IncRef(st, v))
    ensures forall r, w :: Rep(g, st, r, w) ==> Rep(g, IncRef(st, v), r, w)
  {
    SameView(g, st, IncRef(st, v));
  }

  lemma ConstantDone(g: Graph, st: St, j: JId)
    requires Valid(g, st) && Sound(g, st) && IsConstant(g, j) && j !in st.handle
    ensures var (st', n) := MakeConstant(g, st, j, ConstantOf(g.heap[j]).value);
            Sound(g, st') && NewDone(g, st, st') && Stands(g, st', j, n)
  {
    var (st', n) := MakeConstant(g, st, j, ConstantOf(g.heap[j]).value);
    ConstantKeeps(g, st, j, ConstantOf(g.heap[j]).value);
    hide MakeConstant;
    assert Stands(g, st', j, n);
    SoundStays(g, st, st', -1);
  }

  // ----- filling

  ghost predicate Filled(g: Graph, st: St, j: JId, n: NId, i: nat) {
    && j in g.heap && !g.heap[j].kind.Late? && Kids(g.heap[j]) == g.heap[j].refs
    && n < |st.objs| && st.objs[n].src == Some(j) && !st.objs[n].leaky
    && |st.objs[n].slots| == |g.heap[j].refs| && i <= |g.heap[j].refs|
    && forall k :: 0 <= k < i ==> Rep(g, st, g.heap[j].refs[k], st.objs[n].slots[k])
  }

  /** The snapshot may be stale in what it lacks, never in what it has. */
  ghost predicate SnapshotTrue(g: Graph, st: St, j: JId, snap: seq<NRef>) {
    && j in g.heap && |snap| == |g.heap[j].refs|
    && forall k :: 0 <= k < |snap| && snap[k] != Null ==> Rep(g, st, g.heap[j].refs[k], snap[k])
  }

  lemma SnapshotTaken(g: Graph, st: St, j: JId)
    requires Valid(g, st) && Sound(g, st) && Closed(g) && j in g.heap && j !in st.handle && !IsConstant(g, j)
    ensures SnapshotTrue(g, MakeShell(st, j, |g.heap[j].refs|), j, Snapshot(g, st, g.heap[j]))
  {
    var st1 := MakeShell(st, j, |g.heap[j].refs|);
    var snap := Snapshot(g, st, g.heap[j]);
    MakeShellKeepsValid(g, st, j, |g.heap[j].refs|);
    hide MakeShell;
    forall k | 0 <= k < |snap| && snap[k] != Null ensures Rep(g, st1, g.heap[j].refs[k], snap[k]) {
      RepStays(g, st, st1, -1, g.heap[j].refs[k], snap[k]);
    }
  }

  lemma FillOne(g: Graph, st: St, st1: St, j: JId, n: NId, snap: seq<NRef>, i: nat, v: NRef)
    requires FillReady(g, st, j, n, snap) && i < |snap| && Filled(g, st, j, n, i) && SnapshotTrue(g, st, j, snap)
    requires Valid(g, st1) && Extends(st, st1, -1) && Sound(g, st1) && Rep(g, st1, g.heap[j].refs[i], v)
    requires NewDone(g, st, st1) && ValidRef(st1, v)
    ensures var st2 := SetSlot(st1, n, i, v);
            Sound(g, st2) && NewDone(g, st, st2) && Filled(g, st2, j, n, i + 1) && SnapshotTrue(g, st2, j, snap)
  {
    var st2 := SetSlot(st1, n, i, v);
    FillStep(g, st, st1, j, n, snap, i, v);
    SetSlotKeepsValid(g, st1, n, i, v);
    SetSlotView(st1, n, i, v);
    hide Rep; hide SetSlot;
    SoundStays(g, st1, st2, n);
    forall k | 0 <= k < i + 1 ensures Rep(g, st2, g.heap[j].refs[k], st2.objs[n].slots[k]) {
      if k < i { RepStays(g, st, st2, n, g.heap[j].refs[k], st.objs[n].slots[k]); }
      else { RepStays(g, st1, st2, n, g.heap[j].refs[i], v); }
    }
    forall k | 0 <= k < |snap| && snap[k] != Null ensures Rep(g, st2, g.heap[j].refs[k], snap[k]) {
      RepStays(g, st, st2, n, g.heap[j].refs[k], snap[k]);
    }
    forall m | |st.objs| <= m < |st2.objs| ensures Done(g, st2, m) && NewSource(g, st, st2, m) {
      assert NewSource(g, st, st1, m);
      DoneStays(g, st1, st2, n, m);
    }
  }

  lemma SetSlotView(st: St, n: NId, i: nat, v: NRef)
    requires n < |st.objs| && i < |st.objs[n].slots|
    ensures var st' := SetSlot(st, n, i, v);
            && st'.handle == st.handle && st'.shared == st.shared && st'.flagged == st.flagged && |st'.objs| == |st.objs|
            && st'.objs[n] == st.objs[n].(slots := st.objs[n].slots[i := v])
  {
  }

  lemma FilledIsDone(g: Graph, st: St, j: JId, n: NId)
    requires j in g.heap && Filled(g, st, j, n, |g.heap[j].refs|)
    ensures Done(g, st, n) && Stands(g, st, j, n)
  {
  }

  // ----- the conversion

  lemma {:induction false} ConvertDone(g: Graph, st: St, r: JRef)
    requires Ready(g, st) && InHeap(g, r) && Valid(g, st) && Sound(g, st)
    ensures var (st', v) := Convert(g, st, r); Sound(g, st') && Rep(g, st', r, v) && NewDone(g, st, st')
    decreases Unregistered(g, st), Rank(g, r), 2, 0
  {
    if r.JTo? {
      if g.heap[r.j].kind.Native? { NothingNew(g, st, To(g.heap[r.j].kind.n)); }
      else if r.j in st.handle {
        assert Rep(g, st, r, To(st.handle[r.j]));
        NothingNew(g, st, To(st.handle[r.j]));
      }
      else { CreateDone(g, st, r.j); }
    }
  }

  lemma {:induction false} CreateDone(g: Graph, st: St, j: JId)
    requires Ready(g, st) && j in g.heap && j !in st.handle && Valid(g, st) && Sound(g, st)
    requires !g.heap[j].kind.Native?
    ensures var (st', n) := Create(g, st, j); Sound(g, st') && Stands(g, st', j, n) && NewDone(g, st, st')
    decreases Unregistered(g, st), LateRank(g, j), 1, 0
  {
    var o := g.heap[j];
    hide Sound; hide Stands; hide NewDone; hide Rep;
    if o.kind.Late? {
      CollectKeeps(g, st, j, 0);
      CollectDone(g, st, j, 0);
      var (st1, vs) := Collect(g, st, j, 0);
      MakeLateDone(g, st, st1, j, vs);
    } else if ConstantOf(o).Some? {
      ConstantDone(g, st, j);
    } else if Kids(o) == [] {
      LeafDone(g, st, j);
    } else {
      var n := |st.objs|;
      var st1 := MakeShell(st, j, |o.refs|);
      MakeShellKeepsValid(g, st, j, |o.refs|);
      UnregisteredFalls(g, st, st1);
      FillPreconditions(g, st, j);
      ShellSound(g, st, j, |o.refs|);
      SnapshotTaken(g, st, j);
      var snap := Snapshot(g, st, o);
      FillKeeps(g, st1, j, n, snap, 0);
      FillDone(g, st1, j, n, snap, 0);
      var st2 := Fill(g, st1, j, n, snap, 0);
      ShellThenFilled(g, st, st1, st2, j, n);
      FinishChangesCountsOnly(g, st2, j, n);
      FinishedToo(g, st, st2, Finish(g, st2, j, n), j, n);
    }
  }

  lemma LeafDone(g: Graph, st: St, j: JId)
    requires Valid(g, st) && Sound(g, st) && j in g.heap && j !in st.handle && Kids(g.heap[j]) == []
    requires !g.heap[j].kind.Late? && !IsConstant(g, j)
    ensures var st' := Finish(g, MakeShell(st, j, 0), j, |st.objs|);
            Sound(g, st') && Stands(g, st', j, |st.objs|) && NewDone(g, st, st')
  {
    var st1 := MakeShell(st, j, 0);
    MakeShellKeepsValid(g, st, j, 0);
    ShellSound(g, st, j, 0);
    FinishChangesCountsOnly(g, st1, j, |st.objs|);
    assert Nulls(0) == [];
    FinishedToo(g, st, st1, Finish(g, st1, j, |st.objs|), j, |st.objs|);
  }

  lemma ShellThenFilled(g: Graph, st: St, st1: St, st2: St, j: JId, n: NId)
    requires j in g.heap && n == |st.objs| && |st1.objs| == n + 1 && NewDone(g, st1, st2)
    requires j !in st.handle && st1.handle == st.handle[j := n] && Extends(st1, st2, n)
    requires Filled(g, st2, j, n, |g.heap[j].refs|)
    ensures NewDone(g, st, st2) && Stands(g, st2, j, n)
  {
    FilledIsDone(g, st2, j, n);
    hide Done; hide Filled;
    forall m | |st.objs| <= m < |st2.objs| ensures Done(g, st2, m) && NewSource(g, st, st2, m) {
      if m != n { assert NewSource(g, st1, st2, m); }
    }
  }

  lemma FinishedToo(g: Graph, st0: St, st: St, st': St, j: JId, n: NId)
    requires Sound(g, st) && NewDone(g, st0, st) && Stands(g, st, j, n)
    requires st'.objs == st.objs && st'.handle == st.handle && st'.shared == st.shared && st'.flagged == st.flagged
    ensures Sound(g, st') && NewDone(g, st0, st') && Stands(g, st', j, n)
  {
    SameView(g, st, st');
  }

  lemma {:induction false} FillDone(g: Graph, st: St, j: JId, n: NId, snap: seq<NRef>, i: nat)
    requires Ready(g, st) && Valid(g, st) && FillReady(g, st, j, n, snap) && i <= |snap|
    requires Sound(g, st) && Filled(g, st, j, n, i) && SnapshotTrue(g, st, j, snap)
    ensures var st' := Fill(g, st, j, n, snap, i);
            Sound(g, st') && NewDone(g, st, st') && Filled(g, st', j, n, |snap|)
    decreases Unregistered(g, st), |g.heap| + 1, 1, |snap| - i
  {
    hide Sound; hide NewDone; hide Filled; hide SnapshotTrue; hide Fill; hide FillItem; hide SetSlot; hide Ready;
    hide Valid; hide Extends; hide Unregistered;
    if i == |snap| {
      FillEnds(g, st, j, n, snap);
      NothingMoreDone(g, st);
    } else {
      var (st1, v) := FillItem(g, st, j, snap, i);
      var st2 := SetSlot(st1, n, i, v);
      FillItemKeeps(g, st, j, n, snap, i);
      FillItemDone(g, st, j, n, snap, i);
      FillFrom(g, st, j, n, snap, i);
      FillStep(g, st, st1, j, n, snap, i, v);
      FillOne(g, st, st1, j, n, snap, i, v);
      FillKeeps(g, st2, j, n, snap, i + 1);
      FillDone(g, st2, j, n, snap, i + 1);
      NewDoneThen(g, st, st2, Fill(g, st, j, n, snap, i), n);
    }
  }

  lemma NothingMoreDone(g: Graph, st: St)
    ensures NewDone(g, st, st)
  {
  }

  lemma {:induction false} FillItemDone(g: Graph, st: St, j: JId, n: NId, snap: seq<NRef>, i: nat)
    requires Ready(g, st) && Valid(g, st) && FillReady(g, st, j, n, snap) && i < |snap|
    requires Sound(g, st) && SnapshotTrue(g, st, j, snap)
    ensures var (st', v) := FillItem(g, st, j, snap, i);
            Sound(g, st') && NewDone(g, st, st') && Rep(g, st', g.heap[j].refs[i], v)
    decreases Unregistered(g, st), |g.heap| + 1, 0, 0
  {
    if snap[i] != Null { NothingNew(g, st, snap[i]); } else { ConvertDone(g, st, g.heap[j].refs[i]); }
  }

  ghost predicate AllRep(g: Graph, st: St, j: JId, i: nat, vs: seq<NRef>) {
    && j in g.heap && i + |vs| == |g.heap[j].refs|
    && forall k :: 0 <= k < |vs| ==> Rep(g, st, g.heap[j].refs[i + k], vs[k])
  }

  lemma AllRepCons(g: Graph, st: St, st': St, j: JId, i: nat, v: NRef, vs: seq<NRef>)
    requires AllRep(g, st', j, i + 1, vs) && Rep(g, st, g.heap[j].refs[i], v) && Extends(st, st', -1)
    ensures AllRep(g, st', j, i, [v] + vs)
  {
    hide Rep;
    RepStays(g, st, st', -1, g.heap[j].refs[i], v);
    forall k | 0 <= k < |[v] + vs| ensures Rep(g, st', g.heap[j].refs[i + k], ([v] + vs)[k]) {
      if k > 0 { assert ([v] + vs)[k] == vs[k - 1] && i + k == i + 1 + (k - 1); }
    }
  }

  lemma {:induction false} CollectDone(g: Graph, st: St, j: JId, i: nat)
    requires Ready(g, st) && IsLate(g, j) && i <= |g.heap[j].refs| && Valid(g, st) && Sound(g, st)
    ensures var (st', vs) := Collect(g, st, j, i);
            Sound(g, st') && NewDone(g, st, st') && AllRep(g, st', j, i, vs)
    decreases Unregistered(g, st), LateRank(g, j), 0, |g.heap[j].refs| - i
  {
    hide Rep; hide Done;
    if i < |g.heap[j].refs| {
      var r := g.heap[j].refs[i];
      RankFalls(g, j, i);
      var (st1, v) := Convert(g, st, r);
      ConvertKeeps(g, st, r);
      ConvertDone(g, st, r);
      UnregisteredFalls(g, st, st1);
      hide Sound; hide Convert; hide Closed; hide NoLateCycle;
      CollectKeeps(g, st1, j, i + 1);
      CollectDone(g, st1, j, i + 1);
      var (st2, vs) := Collect(g, st1, j, i + 1);
      AllRepCons(g, st1, st2, j, i, v, vs);
      NewDoneThen(g, st, st1, st2, -1);
    }
  }
}
