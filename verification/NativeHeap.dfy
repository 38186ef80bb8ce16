/** The conversion as the program runs it: methods that create objects, set slots, count references and register
    handles in place, recursing on half-built objects. Each is proved to do what the functions of Conversion say,
    so that every theorem about those functions is one about these methods. */
module NativeHeaps {
  import opened Basics
  import opened JavaGraph
  import opened Conversion

  class NativeHeap {
    var objs: seq<NObj>
    var counts: seq<int>
    var weakOwned: seq<int>
    var handle: map<JId, NId>
    var shared: map<Constant, NId>
    var flagged: set<Constant>

    ghost function State(): St
      reads this
    {
      St(objs, counts, weakOwned, handle, shared, flagged)
    }

    constructor ()
      ensures State() == St([], [], [], map[], map[], {})
    {
      objs, counts, weakOwned, handle, shared, flagged := [], [], [], map[], map[], {};
    }

    method Incref(v: NRef)
      modifies this`counts
      ensures State() == IncRef(old(State()), v)
    {
      if v.To? && v.n < |counts| {
        counts := counts[v.n := counts[v.n] + 1];
      }
    }

    method Allocate(o: NObj, count: int) returns (n: NId)
      modifies this`objs, this`counts, this`weakOwned
      ensures State() == New(old(State()), o, count) && n == old(|objs|)
    {
      n := |objs|;
      objs, counts, weakOwned := objs + [o], counts + [count], weakOwned + [0];
    }

    method SetItem(n: NId, i: nat, v: NRef)
      modifies this`objs
      ensures State() == SetSlot(old(State()), n, i, v)
    {
      if n < |objs| && i < |objs[n].slots| {
        objs := objs[n := objs[n].(slots := objs[n].slots[i := v])];
      }
    }

    method SetNativeHandle(j: JId, n: NId)
      modifies this`handle
      ensures State() == Register(old(State()), j, n)
    {
      handle := handle[j := n];
    }

    method InitGref(g: Graph, j: JId, n: NId)
      modifies this`counts, this`weakOwned
      ensures State() == Finish(g, old(State()), j, n)
    {
      if j in g.weak && n < |weakOwned| {
        Incref(To(n));
        weakOwned := weakOwned[n := weakOwned[n] + 1];
      }
    }

    /** PyInt_FromLong, PyString_FromStringAndSize: the one native object of that value. */
    method SharedObject(c: Constant) returns (n: NId)
      modifies this
      ensures (State(), n) == TakeShared(old(State()), c)
    {
      if c in shared {
        n := shared[c];
        Incref(To(n));
      } else {
        n := Allocate(NObj(None, [], false), 2);
        shared := shared[c := n];
      }
    }

    method PyTupleNew(j: JId, size: nat) returns (n: NId)
      modifies this
      ensures size == 0 ==> (State(), n) == TakeShared(old(State()), NoItems)
      ensures size > 0 ==> State() == New(old(State()), NObj(Some(j), Nulls(size), false), 1) && n == old(|objs|)
    {
      if size == 0 {
        n := SharedObject(NoItems);
      } else {
        n := Allocate(NObj(Some(j), Nulls(size), false), 1);
      }
    }

    /** Hands out the native object for a Java reference, with a new reference to it. */
    method FromJython(g: Graph, r: JRef) returns (v: NRef)
      requires Ready(g, State()) && InHeap(g, r)
      modifies this
      ensures (State(), v) == Convert(g, old(State()), r)
      decreases Unregistered(g, State()), Rank(g, r), 2, 0
    {
      if r.JNull? {
        v := Null;
      } else if g.heap[r.j].kind.Native? {
        v := To(g.heap[r.j].kind.n);
        Incref(v);
      } else if r.j in handle {
        v := To(handle[r.j]);
        Incref(v);
      } else {
        var n := InitPyObject(g, r.j);
        v := To(n);
      }
    }

    method InitPyObject(g: Graph, j: JId) returns (n: NId)
      requires Ready(g, State()) && j in g.heap && j !in handle
      modifies this
      ensures (State(), n) == Create(g, old(State()), j)
      decreases Unregistered(g, State()), LateRank(g, j), 1, 1
    {
      var o := g.heap[j];
      match o.kind
      case Native(_) | Leaf | Stub =>
        n := InitPlain(g, j);
      case Cached(v) =>
        n := InitCached(g, j, Value(v));
      case Late(_) =>
        n := InitLate(g, j);
      case Tuple =>
        n := InitTuple(g, j);
      case List =>
        n := InitList(g, j);
      case Early =>
        n := InitEarly(g, j);
    }

    /** Leaves and truncated objects. */
    method InitPlain(g: Graph, j: JId) returns (n: NId)
      requires Ready(g, State()) && j in g.heap && j !in handle
      requires g.heap[j].kind.Native? || g.heap[j].kind.Leaf? || g.heap[j].kind.Stub?
      modifies this
      ensures (State(), n) == Create(g, old(State()), j)
    {
      n := Allocate(NObj(Some(j), Nulls(0), false), 1);
      SetNativeHandle(j, n);
      InitGref(g, j, n);
    }

    /** Small ints and one-letter strings: INIT_JY leaves the handle alone if the shared object is flagged. */
    method InitCached(g: Graph, j: JId, c: Constant) returns (n: NId)
      requires Ready(g, State()) && j in g.heap && j !in handle && g.heap[j].kind.Cached? && ConstantOf(g.heap[j]) == Some(c)
      modifies this
      ensures (State(), n) == Create(g, old(State()), j)
    {
      n := SharedObject(c);
      if c !in flagged {
        SetNativeHandle(j, n);
        flagged := flagged + {c};
      }
      InitGref(g, j, n);
    }

    method InitTuple(g: Graph, j: JId) returns (n: NId)
      requires Ready(g, State()) && j in g.heap && j !in handle && g.heap[j].kind.Tuple?
      modifies this
      ensures (State(), n) == Create(g, old(State()), j)
      decreases Unregistered(g, State()), LateRank(g, j), 0, 0
    {
      hide Convert;
      hide Fill;
      hide Collect;
      hide Ready;
      hide LateRank;
      hide Unregistered;
      ShellReady(g, State(), j);
      if g.heap[j].refs == [] { CreateEmptyTuple(g, State(), j); } else { CreateFills(g, State(), j); }
      hide Create;
      hide Snapshot;
      n := PyTupleNew(j, |g.heap[j].refs|);
      SetNativeHandle(j, n);
      if g.heap[j].refs != [] {
        FillFields(g, j, n);
      } else {
        flagged := flagged + {NoItems};
      }
      InitGref(g, j, n);
    }

    /** Cells and functions: allocated, registered, then their fields one after the other. */
    method InitEarly(g: Graph, j: JId) returns (n: NId)
      requires Ready(g, State()) && j in g.heap && j !in handle && g.heap[j].kind.Early?
      modifies this
      ensures (State(), n) == Create(g, old(State()), j)
      decreases Unregistered(g, State()), LateRank(g, j), 0, 0
    {
      hide Convert;
      hide Fill;
      hide Collect;
      hide Ready;
      hide LateRank;
      hide Unregistered;
      ShellReady(g, State(), j);
      CreateFills(g, State(), j);
      hide Create;
      hide Snapshot;
      n := Allocate(NObj(Some(j), Nulls(|g.heap[j].refs|), false), 1);
      SetNativeHandle(j, n);
      FillFields(g, j, n);
      InitGref(g, j, n);
    }

    /** The items of a tuple, or the fields of a cell or function. */
    method FillFields(g: Graph, j: JId, n: NId)
      requires Ready(g, State()) && j in g.heap
      modifies this
      ensures State() == Fill(g, old(State()), j, n, Nulls(|g.heap[j].refs|), 0)
      decreases Unregistered(g, State()), |g.heap| + 1, 1, 0
    {
      ghost var s0 := State();
      ghost var snap := Nulls(|g.heap[j].refs|);
      FieldsInHeap(g, State(), j);
      hide Convert;
      hide Fill;
      hide FillItem;
      hide Ready;
      hide Unregistered;
      hide Nulls;
      var i := 0;
      while i < |g.heap[j].refs|
        invariant i <= |g.heap[j].refs| == |snap|
        invariant Ready(g, State()) && Unregistered(g, State()) <= Unregistered(g, s0)
        invariant Fill(g, State(), j, n, snap, i) == Fill(g, s0, j, n, snap, 0)
      {
        FillFrom(g, State(), j, n, snap, i);
        NothingSnapped(g, State(), j, i);
        RankBound(g, g.heap[j].refs[i]);
        var item := FromJython(g, g.heap[j].refs[i]);
        SetItem(n, i, item);
        i := i + 1;
      }
      FillEnds(g, State(), j, n, snap);
    }

    /** A list takes its items' handles before its own is registered. */
    method InitList(g: Graph, j: JId) returns (n: NId)
      requires Ready(g, State()) && j in g.heap && j !in handle && g.heap[j].kind.List?
      modifies this
      ensures (State(), n) == Create(g, old(State()), j)
      decreases Unregistered(g, State()), LateRank(g, j), 0, 0
    {
      hide Convert;
      hide Fill;
      hide Collect;
      hide Ready;
      hide LateRank;
      hide Unregistered;
      ShellReady(g, State(), j);
      CreateFills(g, State(), j);
      hide Create;
      hide Snapshot;
      var handles := LookupNativeHandles(g, j);
      n := Allocate(NObj(Some(j), Nulls(|handles|), false), 1);
      SetNativeHandle(j, n);
      FillList(g, j, n, handles);
      InitGref(g, j, n);
    }

    method FillList(g: Graph, j: JId, n: NId, handles: seq<NRef>)
      requires Ready(g, State()) && j in g.heap && |handles| == |g.heap[j].refs|
      modifies this
      ensures State() == Fill(g, old(State()), j, n, handles, 0)
      decreases Unregistered(g, State()), |g.heap| + 1, 1, 0
    {
      ghost var s0 := State();
      FieldsInHeap(g, State(), j);
      hide Convert;
      hide Fill;
      hide Ready;
      hide Unregistered;
      hide LateRank;
      var i := 0;
      while i < |handles|
        invariant i <= |handles|
        invariant Ready(g, State()) && Unregistered(g, State()) <= Unregistered(g, s0)
        invariant Fill(g, State(), j, n, handles, i) == Fill(g, s0, j, n, handles, 0)
      {
        FillFrom(g, State(), j, n, handles, i);
        RankBound(g, g.heap[j].refs[i]);
        var v := handles[i];
        if v == Null {
          v := FromJython(g, g.heap[j].refs[i]);
        } else {
          Incref(v);
        }
        SetItem(n, i, v);
        i := i + 1;
      }
      FillEnds(g, State(), j, n, handles);
    }

    method LookupNativeHandles(g: Graph, j: JId) returns (handles: seq<NRef>)
      requires j in g.heap && g.heap[j].kind.List?
      ensures handles == Snapshot(g, State(), g.heap[j])
    {
      var refs := g.heap[j].refs;
      handles := [];
      while |handles| < |refs|
        invariant |handles| <= |refs|
        invariant forall k :: 0 <= k < |handles| ==> handles[k] == LookupHandle(g, State(), refs[k])
      {
        var r := refs[|handles|];
        if r.JTo? && r.j in g.heap && !g.heap[r.j].kind.Native? && r.j in handle {
          handles := handles + [To(handle[r.j])];
        } else {
          handles := handles + [Null];
        }
      }
    }

    /** Methods, instances and the like: the arguments of the constructor, one after the other, then the object. */
    method InitLate(g: Graph, j: JId) returns (n: NId)
      requires Ready(g, State()) && IsLate(g, j) && j !in handle
      modifies this
      ensures (State(), n) == Create(g, old(State()), j)
      decreases Unregistered(g, State()), LateRank(g, j), 1, 0
    {
      var vs := ConvertArguments(g, j);
      n := Allocate(NObj(Some(j), vs, Borrows(g.heap[j].kind.what)), 1);
      if Borrows(g.heap[j].kind.what) {
        IncrefAll(vs);
      }
      SetNativeHandle(j, n);
      InitGref(g, j, n);
    }

    method ConvertArguments(g: Graph, j: JId) returns (vs: seq<NRef>)
      requires Ready(g, State()) && IsLate(g, j)
      modifies this
      ensures (State(), vs) == Collect(g, old(State()), j, 0)
      decreases Unregistered(g, State()), LateRank(g, j), 0, 0
    {
      hide Convert;
      hide NoLateCycle;
      hide Closed;
      ghost var s0 := State();
      var refs := g.heap[j].refs;
      vs := [];
      while |vs| < |refs|
        invariant |vs| <= |refs|
        invariant s0.handle.Keys <= handle.Keys
        invariant Collect(g, State(), j, |vs|).0 == Collect(g, s0, j, 0).0
        invariant vs + Collect(g, State(), j, |vs|).1 == Collect(g, s0, j, 0).1
      {
        UnregisteredFalls(g, s0, State());
        ItemInHeap(g, j, |vs|);
        RankFalls(g, j, |vs|);
        ghost var rest := Collect(g, State(), j, |vs|).1;
        var v := FromJython(g, refs[|vs|]);
        OneFewer(vs, v, rest);
        vs := vs + [v];
      }
      assert vs + [] == vs;
    }

    method IncrefAll(vs: seq<NRef>)
      modifies this`counts
      ensures State() == IncRefs(old(State()), vs)
    {
      var i := 0;
      while i < |vs|
        invariant i <= |vs|
        invariant State() == IncRefs(old(State()), vs[..i])
      {
        assert vs[..i + 1][..i] == vs[..i];
        Incref(vs[i]);
        i := i + 1;
      }
      assert vs[..i] == vs;
    }
  }

  lemma OneFewer(vs: seq<NRef>, v: NRef, rest: seq<NRef>)
    requires rest != [] && rest[0] == v
    ensures vs + rest == (vs + [v]) + rest[1..]
  {
  }

  lemma ShellReady(g: Graph, st: St, j: JId)
    requires Ready(g, st) && j in g.heap && j !in st.handle
    ensures var st1 := MakeShell(st, j, |g.heap[j].refs|);
            Ready(g, st1) && Unregistered(g, st1) < Unregistered(g, st)
  {
    UnregisteredFalls(g, st, MakeShell(st, j, |g.heap[j].refs|));
  }

  /** The registered-first kinds, empty ones included: a shell, the loop, the weak-reference backend. */
  lemma CreateFills(g: Graph, st: St, j: JId)
    requires Ready(g, st) && j in g.heap && j !in st.handle
    requires var o := g.heap[j]; o.kind.List? || o.kind.Early? || (o.kind.Tuple? && o.refs != [])
    ensures var o := g.heap[j]; var st1 := MakeShell(st, j, |o.refs|);
            && Ready(g, st1)
            && Create(g, st, j) == (Finish(g, Fill(g, st1, j, |st.objs|, Snapshot(g, st, o), 0), j, |st.objs|), |st.objs|)
    ensures !g.heap[j].kind.List? ==> Snapshot(g, st, g.heap[j]) == Nulls(|g.heap[j].refs|)
  {
    ShellReady(g, st, j);
    SnapshotNulls(g, st, j);
    if g.heap[j].refs == [] {
      CreateEmpty(g, st, j);
    } else {
      CreateFilled(g, st, j);
    }
    hide Create; hide Fill; hide Snapshot; hide Finish;
  }

  lemma SnapshotNulls(g: Graph, st: St, j: JId)
    requires j in g.heap
    ensures !g.heap[j].kind.List? ==> Snapshot(g, st, g.heap[j]) == Nulls(|g.heap[j].refs|)
  {
  }

  lemma CreateFilled(g: Graph, st: St, j: JId)
    requires Ready(g, st) && j in g.heap && j !in st.handle && g.heap[j].refs != []
    requires g.heap[j].kind.List? || g.heap[j].kind.Early? || g.heap[j].kind.Tuple?
    requires Ready(g, MakeShell(st, j, |g.heap[j].refs|))
    ensures var o := g.heap[j]; var st1 := MakeShell(st, j, |o.refs|);
            Create(g, st, j) == (Finish(g, Fill(g, st1, j, |st.objs|, Snapshot(g, st, o), 0), j, |st.objs|), |st.objs|)
  {
  }

  lemma CreateEmpty(g: Graph, st: St, j: JId)
    requires Ready(g, st) && j in g.heap && j !in st.handle && g.heap[j].refs == []
    requires g.heap[j].kind.List? || g.heap[j].kind.Early?
    requires Ready(g, MakeShell(st, j, 0))
    ensures var o := g.heap[j]; var st1 := MakeShell(st, j, 0);
            Create(g, st, j) == (Finish(g, Fill(g, st1, j, |st.objs|, Snapshot(g, st, o), 0), j, |st.objs|), |st.objs|)
  {
    FillEnds(g, MakeShell(st, j, 0), j, |st.objs|, Snapshot(g, st, g.heap[j]));
    hide Fill;
  }

  lemma CreateEmptyTuple(g: Graph, st: St, j: JId)
    requires Ready(g, st) && j in g.heap && j !in st.handle && g.heap[j].kind.Tuple? && g.heap[j].refs == []
    ensures var (st1, n) := TakeShared(st, NoItems);
            Create(g, st, j) == (Finish(g, Register(st1, j, n).(flagged := st1.flagged + {NoItems}), j, n), n)
  {
  }

  lemma FieldsInHeap(g: Graph, st: St, j: JId)
    requires Ready(g, st) && j in g.heap
    ensures forall i :: 0 <= i < |g.heap[j].refs| ==> InHeap(g, g.heap[j].refs[i])
  {
    forall i | 0 <= i < |g.heap[j].refs| ensures InHeap(g, g.heap[j].refs[i]) { ItemInHeap(g, j, i); }
  }

  lemma NothingSnapped(g: Graph, st: St, j: JId, i: nat)
    requires Ready(g, st) && j in g.heap && i < |g.heap[j].refs| && InHeap(g, g.heap[j].refs[i])
    ensures FillItem(g, st, j, Nulls(|g.heap[j].refs|), i) == Convert(g, st, g.heap[j].refs[i])
  {
  }

  lemma RankBound(g: Graph, r: JRef)
    ensures Rank(g, r) <= |g.heap|
  {
  }
}
