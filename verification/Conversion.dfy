/** Conversion of Java objects to native ones (_JyNI_PyObject_FromJythonPyObject, JyNI_InitPyObject and the
    pyInit and jy2py functions of JySync.c) as functions on the native heap, reference counts and handles. */
module Conversion {
  import opened Basics
  import opened JavaGraph

  datatype NRef = Null | To(n: NId)

  /** A native object: the Java object it was made for, its item slots, and whether its constructor took
      references of its own to the items although those came with a reference already. */
  datatype NObj = NObj(src: Option<JId>, slots: seq<NRef>, leaky: bool)

  /** What constructors keep one native object for: the empty tuple, a small int, a one-letter string. */
  datatype Constant = NoItems | Value(v: nat)

  function ConstantOf(o: JObj): Option<Constant> {
    match o.kind
    case Tuple => if o.refs == [] then Some(NoItems) else None
    case Cached(v) => Some(Value(v))
    case _ => None
  }

  /** Native objects by address, with their reference counts and the references owned by Jython weak-reference
      backends; Java's table of native handles; the objects that constructors share, and which of these are flagged as
      having a handle. */
  datatype St = St(objs: seq<NObj>, counts: seq<int>, weakOwned: seq<int>, handle: map<JId, NId>,
                   shared: map<Constant, NId>, flagged: set<Constant>)

  // ----- single steps

  function IncRef(st: St, v: NRef): (r: St)
    ensures r.handle == st.handle && r.objs == st.objs && r.shared == st.shared
  {
    if v.To? && v.n < |st.counts| then st.(counts := st.counts[v.n := st.counts[v.n] + 1]) else st
  }

  function IncRefs(st: St, vs: seq<NRef>): (r: St)
    ensures r == st.(counts := r.counts) && |r.counts| == |st.counts|
  {
    if vs == [] then st else IncRef(IncRefs(st, vs[..|vs| - 1]), vs[|vs| - 1])
  }

  /** A new object, with the given reference count, at the next address. */
  function New(st: St, o: NObj, count: int): St {
    st.(objs := st.objs + [o], counts := st.counts + [count], weakOwned := st.weakOwned + [0])
  }

  function Nulls(n: nat): (r: seq<NRef>)
    ensures |r| == n
  {
    seq(n, _ => Null)
  }

  function Register(st: St, j: JId, n: NId): St { st.(handle := st.handle[j := n]) }

  /** INIT_GREF at the end of INIT_JY: an existing weak-reference backend gets a reference of its own. */
  function Finish(g: Graph, st: St, j: JId, n: NId): (r: St)
    ensures r.handle == st.handle && r.objs == st.objs && r.shared == st.shared
  {
    if j in g.weak && n < |st.weakOwned| then
      IncRef(st, To(n)).(weakOwned := st.weakOwned[n := st.weakOwned[n] + 1])
    else st
  }

  function SetSlot(st: St, n: NId, i: nat, v: NRef): (r: St)
    ensures r.handle == st.handle && r.shared == st.shared && |r.objs| == |st.objs|
  {
    if n < |st.objs| && i < |st.objs[n].slots| then
      st.(objs := st.objs[n := st.objs[n].(slots := st.objs[n].slots[i := v])])
    else st
  }

  /** PyTuple_New(0), PyInt_FromLong or PyString_FromString: the first call makes the object and keeps a reference for
      ever. */
  function TakeShared(st: St, c: Constant): (St, NId) {
    if c in st.shared then (IncRef(st, To(st.shared[c])), st.shared[c])
    else (New(st, NObj(None, [], false), 2).(shared := st.shared[c := |st.objs|]), |st.objs|)
  }

  /** The constructor of tuples registers in any case, INIT_JY only if the flag does not say that there is a handle. */
  function RegisterShared(st: St, c: Constant, j: JId, n: NId): St {
    if c == NoItems || c !in st.flagged then Register(st, j, n).(flagged := st.flagged + {c}) else st
  }

  function MakeConstant(g: Graph, st: St, j: JId, c: Constant): (St, NId) {
    var (st1, n) := TakeShared(st, c);
    (Finish(g, RegisterShared(st1, c, j, n), j, n), n)
  }

  /** A new object with empty slots, registered at once. */
  function MakeShell(st: St, j: JId, size: nat): St {
    Register(New(st, NObj(Some(j), Nulls(size), false), 1), j, |st.objs|)
  }

  /** A late object from its converted items: PyMethod_New and its like take references of their own. */
  function MakeLate(g: Graph, st: St, j: JId, vs: seq<NRef>): St
    requires j in g.heap && g.heap[j].kind.Late?
  {
    var st1 := New(st, NObj(Some(j), vs, Borrows(g.heap[j].kind.what)), 1);
    var st2 := if Borrows(g.heap[j].kind.what) then IncRefs(st1, vs) else st1;
    Finish(g, Register(st2, j, |st.objs|), j, |st.objs|)
  }

  /** JyNI_lookupNativeHandles: the handles of a list's items, taken before the list itself is registered. */
  function Snapshot(g: Graph, st: St, o: JObj): seq<NRef> {
    if o.kind.List? then
      seq(|o.refs|, i requires 0 <= i < |o.refs| => LookupHandle(g, st, o.refs[i]))
    else Nulls(|o.refs|)
  }

  function LookupHandle(g: Graph, st: St, r: JRef): NRef {
    if r.JTo? && r.j in g.heap && !g.heap[r.j].kind.Native? && r.j in st.handle then To(st.handle[r.j]) else Null
  }

  // ----- termination

  ghost predicate Ready(g: Graph, st: St) { Closed(g) && NoLateCycle(g) && g.known <= st.handle.Keys }

  ghost predicate InHeap(g: Graph, r: JRef) { r.JTo? ==> r.j in g.heap }

  ghost function Unregistered(g: Graph, st: St): nat { |g.heap.Keys - st.handle.Keys| }

  ghost function Rank(g: Graph, r: JRef): nat { if r.JTo? then LateRank(g, r.j) else 0 }

  lemma UnregisteredFalls(g: Graph, st: St, st': St)
    requires st.handle.Keys <= st'.handle.Keys
    ensures Unregistered(g, st') <= Unregistered(g, st)
    ensures (exists j :: j in g.heap && j !in st.handle && j in st'.handle) ==> Unregistered(g, st') < Unregistered(g, st)
  {
    SubsetSize(g.heap.Keys - st'.handle.Keys, g.heap.Keys - st.handle.Keys);
  }

  lemma RankFalls(g: Graph, j: JId, i: nat)
    requires Closed(g) && NoLateCycle(g) && IsLate(g, j) && i < |g.heap[j].refs|
    ensures Rank(g, g.heap[j].refs[i]) < LateRank(g, j)
  {
    var r := g.heap[j].refs[i];
    if r.JTo? {
      LateRankFalls(g, j, r.j);
    } else {
      ReachesSelf(g, true, j);
      assert j in ReachFrom(g, true, j);
    }
  }

  lemma ItemInHeap(g: Graph, j: JId, i: nat)
    requires Closed(g) && j in g.heap && i < |g.heap[j].refs|
    ensures InHeap(g, g.heap[j].refs[i])
  {
  }

  // ----- the conversion

  /** JyNI_PyObject_FromJythonPyObject: the native object, with a new reference. Terminates because a
      registered-first object is entered only unregistered and is registered before its items, and because the
      late objects form no cycle. */
  ghost function Convert(g: Graph, st: St, r: JRef): (res: (St, NRef))
    requires Ready(g, st) && InHeap(g, r)
    ensures st.handle.Keys <= res.0.handle.Keys
    decreases Unregistered(g, st), Rank(g, r), 2, 0
  {
    if r.JNull? then (st, Null)
    else if g.heap[r.j].kind.Native? then (IncRef(st, To(g.heap[r.j].kind.n)), To(g.heap[r.j].kind.n))
    else if r.j in st.handle then (IncRef(st, To(st.handle[r.j])), To(st.handle[r.j]))
    else var (st1, n) := Create(g, st, r.j); (st1, To(n))
  }

  /** JyNI_InitPyObject for an object that has no handle. */
  ghost function Create(g: Graph, st: St, j: JId): (res: (St, NId))
    requires Ready(g, st) && j in g.heap && j !in st.handle
    ensures st.handle.Keys <= res.0.handle.Keys
    decreases Unregistered(g, st), LateRank(g, j), 1, 0
  {
    var o := g.heap[j];
    if o.kind.Late? then
      // pyInit converts the items and creates the object, INIT_JY registers it
      var (st1, vs) := Collect(g, st, j, 0);
      (MakeLate(g, st1, j, vs), |st1.objs|)
    else if ConstantOf(o).Some? then MakeConstant(g, st, j, ConstantOf(o).value)
    else if Kids(o) == [] then
      (Finish(g, MakeShell(st, j, 0), j, |st.objs|), |st.objs|)
    else
      var st1 := MakeShell(st, j, |o.refs|);
      UnregisteredFalls(g, st, st1);
      (Finish(g, Fill(g, st1, j, |st.objs|, Snapshot(g, st, o), 0), j, |st.objs|), |st.objs|)
  }

  /** The loop that fills the slots of a registered-first object n from item i on. */
  ghost function Fill(g: Graph, st: St, j: JId, n: NId, snap: seq<NRef>, i: nat): (res: St)
    requires Ready(g, st) && j in g.heap && i <= |g.heap[j].refs| == |snap|
    ensures st.handle.Keys <= res.handle.Keys
    decreases Unregistered(g, st), |g.heap| + 1, 1, |snap| - i
  {
    if i == |snap| then st
    else
      var (st1, v) := FillItem(g, st, j, snap, i);
      UnregisteredFalls(g, st, st1);
      Fill(g, SetSlot(st1, n, i, v), j, n, snap, i + 1)
  }

  /** One round of it: the handle from the snapshot with a new reference, or a conversion. */
  ghost function FillItem(g: Graph, st: St, j: JId, snap: seq<NRef>, i: nat): (res: (St, NRef))
    requires Ready(g, st) && j in g.heap && i < |g.heap[j].refs| == |snap|
    ensures st.handle.Keys <= res.0.handle.Keys
    decreases Unregistered(g, st), |g.heap| + 1, 0, 0
  {
    if snap[i] != Null then (IncRef(st, snap[i]), snap[i]) else Convert(g, st, g.heap[j].refs[i])
  }

  /** The items of a late object from item i on, converted before the object exists. */
  ghost function Collect(g: Graph, st: St, j: JId, i: nat): (res: (St, seq<NRef>))
    requires Ready(g, st) && IsLate(g, j) && i <= |g.heap[j].refs|
    ensures st.handle.Keys <= res.0.handle.Keys
    ensures |res.1| == |g.heap[j].refs| - i
    decreases Unregistered(g, st), LateRank(g, j), 0, |g.heap[j].refs| - i
  {
    if i == |g.heap[j].refs| then (st, [])
    else
      var r := g.heap[j].refs[i];
      RankFalls(g, j, i);
      var (st1, v) := Convert(g, st, r);
      UnregisteredFalls(g, st, st1);
      var (st2, vs) := Collect(g, st1, j, i + 1);
      (st2, [v] + vs)
  }

  /** One step of the loop. */
  lemma FillFrom(g: Graph, st: St, j: JId, n: NId, snap: seq<NRef>, i: nat)
    requires Ready(g, st) && j in g.heap && i < |g.heap[j].refs| == |snap|
    ensures var (st1, v) := FillItem(g, st, j, snap, i); var st2 := SetSlot(st1, n, i, v);
            && Ready(g, st2) && Unregistered(g, st2) <= Unregistered(g, st) && st.handle.Keys <= st1.handle.Keys
            && Fill(g, st, j, n, snap, i) == Fill(g, st2, j, n, snap, i + 1)
  {
    UnregisteredFalls(g, st, FillItem(g, st, j, snap, i).0);
  }

  lemma FillEnds(g: Graph, st: St, j: JId, n: NId, snap: seq<NRef>)
    requires Ready(g, st) && j in g.heap && |g.heap[j].refs| == |snap|
    ensures Fill(g, st, j, n, snap, |snap|) == st
  {
  }

  // ----- what every conversion keeps

  ghost predicate ValidRef(st: St, v: NRef) { v.To? ==> v.n < |st.objs| }

  ghost predicate InRange(vs: seq<NRef>, size: nat) {
    forall i :: 0 <= i < |vs| && vs[i].To? ==> vs[i].n < size
  }

  /** No object is made for a Java object whose constructor returns a shared one. */
  ghost predicate NoConstant(g: Graph, src: Option<JId>) {
    src.Some? && src.value in g.heap ==> ConstantOf(g.heap[src.value]).None?
  }

  ghost predicate Valid(g: Graph, st: St) {
    && |st.objs| == |st.counts| == |st.weakOwned|
    && (forall j :: j in st.handle ==> st.handle[j] < |st.objs|)
    && (forall j :: j in g.heap && g.heap[j].kind.Native? ==> g.heap[j].kind.n < |st.objs|)
    && (forall c :: c in st.shared ==> st.shared[c] < |st.objs| && st.objs[st.shared[c]] == NObj(None, [], false))
    && (forall c, d :: c in st.shared && d in st.shared && st.shared[c] == st.shared[d] ==> c == d)
    && (forall m :: 0 <= m < |st.objs| ==> NoConstant(g, st.objs[m].src))
    && (forall m :: 0 <= m < |st.objs| ==> InRange(st.objs[m].slots, |st.objs|))
  }

  /** Nothing that existed changes, but for the slots of object n if it is one (-1: no object). */
  ghost predicate Extends(st: St, st': St, n: int) {
    && |st.objs| <= |st'.objs|
    && (forall m :: 0 <= m < |st.objs| && m != n ==> st'.objs[m] == st.objs[m])
    && (0 <= n < |st.objs| ==> st'.objs[n] == st.objs[n].(slots := st'.objs[n].slots)
                               && |st'.objs[n].slots| == |st.objs[n].slots|)
    && (forall j :: j in st.handle ==> j in st'.handle && st'.handle[j] == st.handle[j])
    && (forall c :: c in st.shared ==> c in st'.shared && st'.shared[c] == st.shared[c])
    && (forall c :: c in st'.shared && c !in st.shared ==> st'.shared[c] >= |st.objs|)
    && st.flagged <= st'.flagged
  }

  lemma ExtendsSize(st: St, st': St)
    requires Extends(st, st', -1)
    ensures |st.objs| <= |st'.objs|
  {
  }

  lemma ExtendsTransitive(a: St, b: St, c: St, n: int)
    requires Extends(a, b, n) && Extends(b, c, n)
    ensures Extends(a, c, n)
  {
  }

  lemma IncRefKeepsValid(g: Graph, st: St, v: NRef)
    requires Valid(g, st)
    ensures Valid(g, IncRef(st, v)) && Extends(st, IncRef(st, v), -1)
  {
  }

  lemma RegisterKeepsValid(g: Graph, st: St, j: JId, n: NId)
    requires Valid(g, st) && n < |st.objs|
    ensures Valid(g, Register(st, j, n)) && (j !in st.handle ==> Extends(st, Register(st, j, n), -1))
  {
  }

  lemma FinishKeepsValid(g: Graph, st: St, j: JId, n: NId)
    requires Valid(g, st)
    ensures Valid(g, Finish(g, st, j, n)) && Extends(st, Finish(g, st, j, n), -1)
  {
  }

  lemma NewKeepsValid(g: Graph, st: St, o: NObj, count: int)
    requires Valid(g, st) && InRange(o.slots, |st.objs|) && NoConstant(g, o.src)
    ensures Valid(g, New(st, o, count)) && Extends(st, New(st, o, count), -1)
  {
  }

  lemma SetSlotKeepsValid(g: Graph, st: St, n: NId, i: nat, v: NRef)
    requires Valid(g, st) && n < |st.objs| && i < |st.objs[n].slots| && ValidRef(st, v)
    requires n !in st.shared.Values
    ensures Valid(g, SetSlot(st, n, i, v)) && Extends(st, SetSlot(st, n, i, v), n)
  {
  }

  lemma TakeSharedKeepsValid(g: Graph, st: St, c: Constant)
    requires Valid(g, st)
    ensures var (st', n) := TakeShared(st, c);
            && Valid(g, st') && Extends(st, st', -1) && c in st'.shared && st'.shared[c] == n
            && n < |st'.objs| && st'.handle == st.handle && st'.flagged == st.flagged
  {
    hide Valid; hide Extends; hide InRange;
    if c in st.shared {
      SharedInHeap(g, st, c);
      IncRefKeepsValid(g, st, To(st.shared[c]));
    } else {
      MakeSharedKeepsValid(g, st, c);
    }
  }

  lemma SharedInHeap(g: Graph, st: St, c: Constant)
    requires Valid(g, st) && c in st.shared
    ensures st.shared[c] < |st.objs|
  {
  }

  lemma MakeSharedKeepsValid(g: Graph, st: St, c: Constant)
    requires Valid(g, st) && c !in st.shared
    ensures var st1 := New(st, NObj(None, [], false), 2); var st' := st1.(shared := st.shared[c := |st.objs|]);
            Valid(g, st') && Extends(st, st', -1) && |st1.objs| == |st.objs| + 1
  {
    var st1 := New(st, NObj(None, [], false), 2);
    NewKeepsValid(g, st, NObj(None, [], false), 2);
    assert st1.objs[|st.objs|] == NObj(None, [], false) && |st.objs| !in st.shared.Values;
    ShareKeepsValid(g, st1, c, |st.objs|);
    hide Valid; hide InRange; hide New;
    assert st1.shared == st.shared;
  }

  lemma ShareKeepsValid(g: Graph, st: St, c: Constant, n: NId)
    requires Valid(g, st) && n < |st.objs| && st.objs[n] == NObj(None, [], false) && n !in st.shared.Values
    ensures Valid(g, st.(shared := st.shared[c := n]))
  {
    hide InRange;
  }

  lemma RegisterSharedKeepsValid(g: Graph, st: St, c: Constant, j: JId, n: NId)
    requires Valid(g, st) && n < |st.objs| && j !in st.handle
    ensures var st' := RegisterShared(st, c, j, n);
            && Valid(g, st') && Extends(st, st', -1) && st'.objs == st.objs && st'.shared == st.shared
            && st'.counts == st.counts && st'.weakOwned == st.weakOwned
            && st'.handle in {st.handle, st.handle[j := n]} && (c == NoItems ==> st'.handle == st.handle[j := n])
  {
    RegisterKeepsValid(g, st, j, n);
  }

  lemma MakeShellKeepsValid(g: Graph, st: St, j: JId, size: nat)
    requires Valid(g, st) && j !in st.handle && NoConstant(g, Some(j))
    ensures var st' := MakeShell(st, j, size);
            && Valid(g, st') && Extends(st, st', -1) && |st'.objs| == |st.objs| + 1 && st'.shared == st.shared
            && st'.objs[|st.objs|] == NObj(Some(j), Nulls(size), false) && st'.handle == st.handle[j := |st.objs|]
  {
    NewKeepsValid(g, st, NObj(Some(j), Nulls(size), false), 1);
    RegisterKeepsValid(g, New(st, NObj(Some(j), Nulls(size), false), 1), j, |st.objs|);
  }

  /** A late object is new; the handle it gets replaces none that existed before its items were converted. */
  lemma MakeLateKeepsValid(g: Graph, st0: St, st: St, j: JId, vs: seq<NRef>)
    requires Valid(g, st) && Extends(st0, st, -1) && j in g.heap && g.heap[j].kind.Late? && j !in st0.handle
    requires InRange(vs, |st.objs|)
    ensures var st' := MakeLate(g, st, j, vs);
            && Valid(g, st') && Extends(st0, st', -1) && |st'.objs| == |st.objs| + 1
            && st'.objs == st.objs + [NObj(Some(j), vs, Borrows(g.heap[j].kind.what))]
            && st'.handle == st.handle[j := |st.objs|] && st'.shared == st.shared
  {
    var o := NObj(Some(j), vs, Borrows(g.heap[j].kind.what));
    NewKeepsValid(g, st, o, 1);
    var st2 := if o.leaky then IncRefs(New(st, o, 1), vs) else New(st, o, 1);
    RegisterKeepsValid(g, st2, j, |st.objs|);
    FinishKeepsValid(g, Register(st2, j, |st.objs|), j, |st.objs|);
  }

  lemma {:induction false} ConvertKeeps(g: Graph, st: St, r: JRef)
    requires Ready(g, st) && InHeap(g, r) && Valid(g, st)
    ensures var (st', v) := Convert(g, st, r); Valid(g, st') && Extends(st, st', -1) && ValidRef(st', v)
    decreases Unregistered(g, st), Rank(g, r), 2, 0
  {
    if r.JTo? {
      if g.heap[r.j].kind.Native? { IncRefKeepsValid(g, st, To(g.heap[r.j].kind.n)); }
      else if r.j in st.handle { IncRefKeepsValid(g, st, To(st.handle[r.j])); }
      else { CreateKeeps(g, st, r.j); }
    }
  }

  lemma {:induction false} CreateKeeps(g: Graph, st: St, j: JId)
    requires Ready(g, st) && j in g.heap && j !in st.handle && Valid(g, st)
    ensures var (st', n) := Create(g, st, j);
            && Valid(g, st') && Extends(st, st', -1) && n < |st'.objs|
            && (g.heap[j].kind.Cached? || (j in st'.handle && st'.handle[j] == n))
    decreases Unregistered(g, st), LateRank(g, j), 1, 0
  {
    var o := g.heap[j];
    hide Valid; hide Extends;
    if o.kind.Late? {
      CollectKeeps(g, st, j, 0);
      var (st1, vs) := Collect(g, st, j, 0);
      MakeLateKeepsValid(g, st, st1, j, vs);
    } else if ConstantOf(o).Some? {
      ConstantKeeps(g, st, j, ConstantOf(o).value);
    } else {
      var st1 := MakeShell(st, j, if Kids(o) == [] then 0 else |o.refs|);
      MakeShellKeepsValid(g, st, j, if Kids(o) == [] then 0 else |o.refs|);
      if Kids(o) == [] {
        FinishAfter(g, st, st1, j, |st.objs|);
      } else {
        UnregisteredFalls(g, st, st1);
        FillPreconditions(g, st, j);
        FillKeeps(g, st1, j, |st.objs|, Snapshot(g, st, o), 0);
        ExtendsPastNew(st, st1, Fill(g, st1, j, |st.objs|, Snapshot(g, st, o), 0));
        FinishAfter(g, st, Fill(g, st1, j, |st.objs|, Snapshot(g, st, o), 0), j, |st.objs|);
      }
    }
  }

  lemma ConstantKeeps(g: Graph, st: St, j: JId, c: Constant)
    requires Valid(g, st) && j !in st.handle
    ensures var (st', n) := MakeConstant(g, st, j, c);
            && Valid(g, st') && Extends(st, st', -1) && n < |st'.objs| && c in st'.shared && st'.shared[c] == n
            && st'.handle in {st.handle, st.handle[j := n]} && (c == NoItems ==> st'.handle == st.handle[j := n])
            && st'.objs == TakeShared(st, c).0.objs && st'.shared == TakeShared(st, c).0.shared
  {
    var (st1, n) := TakeShared(st, c);
    TakeSharedKeepsValid(g, st, c);
    RegisterSharedKeepsValid(g, st1, c, j, n);
    hide TakeShared; hide RegisterShared; hide Valid; hide Extends;
    FinishKeepsValid(g, RegisterShared(st1, c, j, n), j, n);
    ExtendsTransitive(st, st1, RegisterShared(st1, c, j, n), -1);
    ExtendsTransitive(st, RegisterShared(st1, c, j, n), MakeConstant(g, st, j, c).0, -1);
    ExtendsSize(st, MakeConstant(g, st, j, c).0);
  }

  lemma FinishAfter(g: Graph, st: St, st1: St, j: JId, n: NId)
    requires Valid(g, st1) && Extends(st, st1, -1) && j in st1.handle && st1.handle[j] == n
    ensures var st' := Finish(g, st1, j, n);
            Valid(g, st') && Extends(st, st', -1) && n < |st'.objs| && j in st'.handle && st'.handle[j] == n
  {
    FinishKeepsValid(g, st1, j, n);
  }

  lemma ExtendsPastNew(st: St, st1: St, st2: St)
    requires Extends(st, st1, -1) && Extends(st1, st2, |st.objs|)
    ensures Extends(st, st2, -1)
  {
  }

  /** The shell of a container and the snapshot of its items' handles fit the loop that fills it. */
  ghost predicate FillReady(g: Graph, st: St, j: JId, n: NId, snap: seq<NRef>) {
    && j in g.heap && |g.heap[j].refs| == |snap| && n < |st.objs| && |st.objs[n].slots| == |snap|
    && n !in st.shared.Values && InRange(snap, |st.objs|) && j in st.handle && st.handle[j] == n
  }

  lemma FillPreconditions(g: Graph, st: St, j: JId)
    requires Valid(g, st) && Closed(g) && j in g.heap && j !in st.handle && NoConstant(g, Some(j))
    ensures FillReady(g, MakeShell(st, j, |g.heap[j].refs|), j, |st.objs|, Snapshot(g, st, g.heap[j]))
  {
    MakeShellKeepsValid(g, st, j, |g.heap[j].refs|);
  }

  lemma FillStep(g: Graph, st: St, st1: St, j: JId, n: NId, snap: seq<NRef>, i: nat, v: NRef)
    requires FillReady(g, st, j, n, snap) && i < |snap|
    requires Valid(g, st1) && Extends(st, st1, -1) && ValidRef(st1, v)
    ensures var st2 := SetSlot(st1, n, i, v);
            Valid(g, st2) && Extends(st, st2, n) && FillReady(g, st2, j, n, snap)
  {
    SetSlotKeepsValid(g, st1, n, i, v);
  }

  lemma {:induction false} FillKeeps(g: Graph, st: St, j: JId, n: NId, snap: seq<NRef>, i: nat)
    requires Ready(g, st) && Valid(g, st) && FillReady(g, st, j, n, snap) && i <= |snap|
    ensures var st' := Fill(g, st, j, n, snap, i);
            Valid(g, st') && Extends(st, st', n) && j in st'.handle && st'.handle[j] == n
    decreases Unregistered(g, st), |g.heap| + 1, 1, |snap| - i
  {
    hide Fill; hide FillItem; hide SetSlot; hide Valid; hide Extends; hide Ready; hide Unregistered;
    if i < |snap| {
      var (st1, v) := FillItem(g, st, j, snap, i);
      FillItemKeeps(g, st, j, n, snap, i);
      FillFrom(g, st, j, n, snap, i);
      FillStep(g, st, st1, j, n, snap, i, v);
      FillKeeps(g, SetSlot(st1, n, i, v), j, n, snap, i + 1);
      ExtendsTransitive(st, SetSlot(st1, n, i, v), Fill(g, st, j, n, snap, i), n);
    } else {
      FillEnds(g, st, j, n, snap);
      ExtendsSelfAt(st, n);
    }
  }

  lemma {:induction false} FillItemKeeps(g: Graph, st: St, j: JId, n: NId, snap: seq<NRef>, i: nat)
    requires Ready(g, st) && Valid(g, st) && FillReady(g, st, j, n, snap) && i < |snap|
    ensures var (st', v) := FillItem(g, st, j, snap, i); Valid(g, st') && Extends(st, st', -1) && ValidRef(st', v)
    decreases Unregistered(g, st), |g.heap| + 1, 0, 0
  {
    if snap[i] != Null { IncRefKeepsValid(g, st, snap[i]); } else { ConvertKeeps(g, st, g.heap[j].refs[i]); }
  }

  lemma ExtendsSelf(st: St)
    ensures Extends(st, st, -1) && InRange([], |st.objs|)
  {
  }

  lemma ExtendsSelfAt(st: St, n: int)
    ensures Extends(st, st, n)
  {
  }

  lemma InRangeCons(st: St, st': St, v: NRef, vs: seq<NRef>)
    requires ValidRef(st, v) && |st.objs| <= |st'.objs| && InRange(vs, |st'.objs|)
    ensures InRange([v] + vs, |st'.objs|)
  {
  }

  lemma {:induction false} CollectKeeps(g: Graph, st: St, j: JId, i: nat)
    requires Ready(g, st) && IsLate(g, j) && i <= |g.heap[j].refs| && Valid(g, st)
    ensures var (st', vs) := Collect(g, st, j, i); Valid(g, st') && Extends(st, st', -1) && InRange(vs, |st'.objs|)
    decreases Unregistered(g, st), LateRank(g, j), 0, |g.heap[j].refs| - i
  {
    hide Convert; hide Valid; hide NoLateCycle; hide InRange;
    if i == |g.heap[j].refs| {
      ExtendsSelf(st);
    } else {
      var r := g.heap[j].refs[i];
      RankFalls(g, j, i);
      var (st1, v) := Convert(g, st, r);
      ConvertKeeps(g, st, r);
      UnregisteredFalls(g, st, st1);
      CollectKeeps(g, st1, j, i + 1);
      InRangeCons(st1, Collect(g, st1, j, i + 1).0, v, Collect(g, st1, j, i + 1).1);
      ExtendsTransitive(st, st1, Collect(g, st, j, i).0, -1);
    }
  }
}
