/** The references of Jython weak-reference backends, told from the Java graph: an object made for a Java object with a
    backend gets one; a shared object gets one whenever it is initialised for a Java constant with a backend. */
module ConversionBackends {
  import opened Basics
  import opened JavaGraph
  import opened Conversion
  import opened ConversionCounts

  /** k is a constant of value c and has a backend. */
  predicate Backed(g: Graph, c: Constant, k: JId) {
    k in g.weak && k in g.heap && ConstantOf(g.heap[k]) == Some(c)
  }

  predicate Asks(g: Graph, c: Constant, registered: set<JId>, r: JRef) {
    r.JTo? && Backed(g, c, r.j) && r.j !in registered
  }

  /** References to such constants without handles. */
  function Asked(g: Graph, c: Constant, registered: set<JId>, refs: seq<JRef>): nat {
    if refs == [] then 0
    else (if Asks(g, c, registered, refs[0]) then 1 else 0) + Asked(g, c, registered, refs[1..])
  }

  function AskedBy(g: Graph, c: Constant, registered: set<JId>, o: NObj): nat {
    if o.src.Some? && o.src.value in g.heap then Asked(g, c, registered, Kids(g.heap[o.src.value])) else 0
  }

  /** Such references among the items of the objects from address `first` on. */
  function AskedSince(g: Graph, c: Constant, registered: set<JId>, objs: seq<NObj>, first: nat): nat {
    if |objs| <= first then 0
    else AskedSince(g, c, registered, objs[..|objs| - 1], first) + AskedBy(g, c, registered, objs[|objs| - 1])
  }

  /** Such constants that are given a handle. */
  ghost function NewlyBacked(g: Graph, c: Constant, st: St, st': St): set<JId> {
    set k | k in g.weak && Backed(g, c, k) && k in st'.handle && k !in st.handle
  }

  /** How often a conversion from st to st' that is asked for `refs` initialises the constant c for a Java object with a
      backend: once for each that it gives a handle, and every time it is asked for one that gets none. */
  ghost function Initialised(g: Graph, c: Constant, st: St, st': St, refs: seq<JRef>): nat {
    |NewlyBacked(g, c, st, st')|
    + AskedSince(g, c, st'.handle.Keys, st'.objs, |st.objs|) + Asked(g, c, st'.handle.Keys, refs)
  }

  /** What backends own of the shared object. */
  function SharedOwned(st: St, c: Constant): int {
    if c in st.shared && st.shared[c] < |st.weakOwned| then st.weakOwned[st.shared[c]] else 0
  }

  // ----- what a part of a conversion does

  ghost predicate Later(g: Graph, c: Constant, st: St, st': St) {
    && |st.objs| <= |st'.objs| && |st.weakOwned| == |st.objs| && |st'.weakOwned| == |st'.objs|
    && (forall m :: 0 <= m < |st.objs| ==> st'.objs[m].src == st.objs[m].src)
    && st.handle.Keys <= st'.handle.Keys && st.flagged <= st'.flagged
    && (forall d :: d in st.shared ==> d in st'.shared && st'.shared[d] == st.shared[d])
    && (forall d :: d in st'.shared && d !in st.shared ==> |st.objs| <= st'.shared[d] < |st'.objs|)
    && (c != NoItems && c in st.flagged ==> NewlyBacked(g, c, st, st') == {})
  }

  /** Objects made for a Java object get a reference for its backend; old ones nothing, shared ones apart. */
  ghost predicate OwnGiven(g: Graph, st: St, st': St) {
    && |st.objs| <= |st'.objs| && |st.weakOwned| == |st.objs| && |st'.weakOwned| == |st'.objs|
    && (forall m :: 0 <= m < |st.objs| && m !in st'.shared.Values ==> st'.weakOwned[m] == st.weakOwned[m])
    && (forall m :: |st.objs| <= m < |st'.objs| ==>
          match st'.objs[m].src
          case None => m in st'.shared.Values
          case Some(j) => m !in st'.shared.Values && st'.weakOwned[m] == if j in g.weak then 1 else 0)
  }

  ghost predicate SharedGiven(g: Graph, c: Constant, st: St, st': St, refs: seq<JRef>) {
    && SharedOwned(st', c) == SharedOwned(st, c) + Initialised(g, c, st, st', refs)
    && (Initialised(g, c, st, st', refs) > |NewlyBacked(g, c, st, st')| ==> c != NoItems && c in st'.flagged)
  }

  ghost predicate Given(g: Graph, c: Constant, st: St, st': St, refs: seq<JRef>) {
    Later(g, c, st, st') && OwnGiven(g, st, st') && SharedGiven(g, c, st, st', refs)
  }

  // ----- counting

  lemma {:induction false} AskedConcat(g: Graph, c: Constant, registered: set<JId>, us: seq<JRef>, vs: seq<JRef>)
    ensures Asked(g, c, registered, us + vs) == Asked(g, c, registered, us) + Asked(g, c, registered, vs)
  {
    if us == [] {
      assert us + vs == vs;
    } else {
      assert (us + vs)[1..] == us[1..] + vs;
      AskedConcat(g, c, registered, us[1..], vs);
    }
  }

  lemma AskedOne(g: Graph, c: Constant, registered: set<JId>, r: JRef)
    ensures Asked(g, c, registered, [r]) == if Asks(g, c, registered, r) then 1 else 0
  {
    assert Asked(g, c, registered, [r][1..]) == 0;
  }

  /** More handles: fewer are asked for, and as many if no handle goes to one of these constants. */
  lemma {:induction false} AskedLater(g: Graph, c: Constant, a: set<JId>, b: set<JId>, refs: seq<JRef>)
    requires a <= b
    ensures Asked(g, c, b, refs) <= Asked(g, c, a, refs)
    ensures (forall k :: k in b && k !in a ==> !Backed(g, c, k)) ==> Asked(g, c, b, refs) == Asked(g, c, a, refs)
  {
    if refs != [] { AskedLater(g, c, a, b, refs[1..]); }
  }

  lemma {:induction false} AskedSinceLater(g: Graph, c: Constant, a: set<JId>, b: set<JId>, objs: seq<NObj>, first: nat)
    requires a <= b
    ensures AskedSince(g, c, b, objs, first) <= AskedSince(g, c, a, objs, first)
    ensures (forall k :: k in b && k !in a ==> !Backed(g, c, k)) ==>
              AskedSince(g, c, b, objs, first) == AskedSince(g, c, a, objs, first)
    decreases |objs|
  {
    if first < |objs| {
      AskedSinceLater(g, c, a, b, objs[..|objs| - 1], first);
      var o := objs[|objs| - 1];
      if o.src.Some? && o.src.value in g.heap { AskedLater(g, c, a, b, Kids(g.heap[o.src.value])); }
    }
  }

  /** Only the sources of objects matter, and what is asked for adds up. */
  lemma {:induction false} AskedSinceParts(g: Graph, c: Constant, registered: set<JId>, objs: seq<NObj>, more: seq<NObj>,
                                           first: nat)
    requires first <= |objs| <= |more| && forall m :: 0 <= m < |objs| ==> more[m].src == objs[m].src
    ensures AskedSince(g, c, registered, more, first)
            == AskedSince(g, c, registered, objs, first) + AskedSince(g, c, registered, more, |objs|)
    decreases |objs| + |more|
  {
    if |more| > |objs| {
      AskedSinceParts(g, c, registered, objs, more[..|more| - 1], first);
    } else if |objs| > first {
      AskedSinceParts(g, c, registered, objs[..|objs| - 1], more[..|more| - 1], first);
      assert AskedBy(g, c, registered, more[|more| - 1]) == AskedBy(g, c, registered, objs[|objs| - 1]);
      assert AskedSince(g, c, registered, more[..|more| - 1], |objs| - 1) == 0;
    }
  }

  // ----- one part after the other

  lemma NewlyBackedParts(g: Graph, c: Constant, a: St, b: St, d: St)
    requires a.handle.Keys <= b.handle.Keys <= d.handle.Keys
    ensures |NewlyBacked(g, c, a, d)| == |NewlyBacked(g, c, a, b)| + |NewlyBacked(g, c, b, d)|
    ensures NewlyBacked(g, c, a, b) <= NewlyBacked(g, c, a, d)
    ensures NewlyBacked(g, c, a, d) == NewlyBacked(g, c, a, b) + NewlyBacked(g, c, b, d)
  {
    assert NewlyBacked(g, c, a, d) == NewlyBacked(g, c, a, b) + NewlyBacked(g, c, b, d);
    assert NewlyBacked(g, c, a, b) !! NewlyBacked(g, c, b, d);
  }

  lemma LaterThen(g: Graph, c: Constant, a: St, b: St, d: St)
    requires Later(g, c, a, b) && Later(g, c, b, d)
    ensures Later(g, c, a, d)
  {
    NewlyBackedParts(g, c, a, b, d);
  }

  lemma OwnThen(g: Graph, c: Constant, a: St, b: St, d: St)
    requires Later(g, c, a, b) && Later(g, c, b, d) && OwnGiven(g, a, b) && OwnGiven(g, b, d)
    ensures OwnGiven(g, a, d)
  {
    forall m | m in b.shared.Values ensures m in d.shared.Values { var e :| e in b.shared && b.shared[e] == m; assert d.shared[e] == m; }
    forall m | m in d.shared.Values && m !in b.shared.Values ensures m >= |b.objs| { }
  }

  lemma SharedThen(g: Graph, c: Constant, a: St, b: St, d: St, us: seq<JRef>, vs: seq<JRef>)
    requires Later(g, c, a, b) && Later(g, c, b, d)
    requires SharedGiven(g, c, a, b, us) && SharedGiven(g, c, b, d, vs)
    ensures SharedGiven(g, c, a, d, us + vs)
  {
    NewlyBackedParts(g, c, a, b, d);
    var x, y := b.handle.Keys, d.handle.Keys;
    AskedConcat(g, c, y, us, vs);
    AskedSinceParts(g, c, y, b.objs, d.objs, |a.objs|);
    AskedLater(g, c, x, y, us);
    AskedSinceLater(g, c, x, y, b.objs, |a.objs|);
    if NewlyBacked(g, c, b, d) == {} {
      forall k | k in y && k !in x ensures !Backed(g, c, k) { assert k !in NewlyBacked(g, c, b, d); }
    }
  }

  lemma GivenThen(g: Graph, c: Constant, a: St, b: St, d: St, us: seq<JRef>, vs: seq<JRef>)
    requires Given(g, c, a, b, us) && Given(g, c, b, d, vs)
    ensures Given(g, c, a, d, us + vs)
  {
    LaterThen(g, c, a, b, d);
    OwnThen(g, c, a, b, d);
    SharedThen(g, c, a, b, d, us, vs);
  }

  // ----- single steps

  /** A step that concerns no constant of this value and makes nothing. */
  lemma NothingGiven(g: Graph, c: Constant, st: St, st': St, refs: seq<JRef>)
    requires Valid(g, st) && |st'.objs| == |st.objs| && forall m :: 0 <= m < |st.objs| ==> st'.objs[m].src == st.objs[m].src
    requires st'.weakOwned == st.weakOwned && st'.shared == st.shared && st'.flagged == st.flagged
    requires st.handle.Keys <= st'.handle.Keys && forall k :: k in st'.handle && k !in st.handle ==> !Backed(g, c, k)
    requires forall r :: r in refs ==> !Asks(g, c, st'.handle.Keys, r)
    ensures Given(g, c, st, st', refs)
  {
    NoneAsked(g, c, st'.handle.Keys, refs);
    assert NewlyBacked(g, c, st, st') == {};
  }

  lemma {:induction false} NoneAsked(g: Graph, c: Constant, registered: set<JId>, refs: seq<JRef>)
    requires forall r :: r in refs ==> !Asks(g, c, registered, r)
    ensures Asked(g, c, registered, refs) == 0
  {
    if refs != [] { NoneAsked(g, c, registered, refs[1..]); }
  }

  lemma AskedByLast(g: Graph, c: Constant, registered: set<JId>, objs: seq<NObj>, j: JId)
    requires objs != [] && objs[|objs| - 1].src == Some(j) && j in g.heap
    ensures AskedSince(g, c, registered, objs, |objs| - 1) == Asked(g, c, registered, Kids(g.heap[j]))
  {
    assert AskedSince(g, c, registered, objs[..|objs| - 1], |objs| - 1) == 0;
  }

  // ----- a container: the shell of j is made, its items are converted, and INIT_GREF ends it

  function Backend(g: Graph, j: JId): int { if j in g.weak then 1 else 0 }

  /** st2 with the backend's reference to object n. */
  ghost predicate Ended(g: Graph, st2: St, st': St, j: JId, n: NId) {
    && n < |st2.weakOwned| && st'.weakOwned == st2.weakOwned[n := st2.weakOwned[n] + Backend(g, j)]
    && st'.objs == st2.objs && st'.handle == st2.handle && st'.shared == st2.shared && st'.flagged == st2.flagged
  }

  lemma FinishEnds(g: Graph, st2: St, j: JId, n: NId)
    requires n < |st2.weakOwned|
    ensures Ended(g, st2, Finish(g, st2, j, n), j, n)
  {
  }

  ghost predicate SharedExist(st: St) { forall c :: c in st.shared ==> st.shared[c] < |st.objs| }

  /** A new object for j at the next address, without a backend's reference yet. */
  ghost predicate Added(st: St, st1: St, j: JId) {
    && |st1.objs| == |st.objs| + 1 && st1.objs[..|st.objs|] == st.objs && st1.objs[|st.objs|].src == Some(j)
    && st1.weakOwned == st.weakOwned + [0] && |st.weakOwned| == |st.objs|
    && st1.handle.Keys == st.handle.Keys + {j} && st1.shared == st.shared && st1.flagged == st.flagged
  }

  lemma ShellAdds(st: St, j: JId, size: nat)
    requires |st.weakOwned| == |st.objs|
    ensures Added(st, MakeShell(st, j, size), j)
  {
    assert MakeShell(st, j, size).objs[..|st.objs|] == st.objs;
  }

  lemma ShellLater(g: Graph, c: Constant, st: St, st1: St, st2: St, st': St, j: JId)
    requires Added(st, st1, j) && Later(g, c, st1, st2) && Ended(g, st2, st', j, |st.objs|)
    requires j in g.heap && ConstantOf(g.heap[j]) == None
    ensures Later(g, c, st, st') && NewlyBacked(g, c, st, st') == NewlyBacked(g, c, st1, st2)
  {
    assert NewlyBacked(g, c, st, st') == NewlyBacked(g, c, st1, st2);
    forall m | 0 <= m < |st.objs| ensures st'.objs[m].src == st.objs[m].src { assert st1.objs[m] == st.objs[m]; }
  }

  lemma ShellOwn(g: Graph, st: St, st1: St, st2: St, st': St, j: JId)
    requires Added(st, st1, j) && OwnGiven(g, st1, st2) && Ended(g, st2, st', j, |st.objs|)
    requires st2.objs[|st.objs|].src == Some(j) && |st.objs| !in st2.shared.Values
    ensures OwnGiven(g, st, st')
  {
  }

  lemma ShellShared(g: Graph, c: Constant, st: St, st1: St, st2: St, st': St, j: JId)
    requires Added(st, st1, j) && Later(g, c, st1, st2) && Ended(g, st2, st', j, |st.objs|)
    requires j in g.heap && ConstantOf(g.heap[j]) == None && |st.objs| !in st2.shared.Values
    requires NewlyBacked(g, c, st, st') == NewlyBacked(g, c, st1, st2)
    requires SharedGiven(g, c, st1, st2, Kids(g.heap[j])) && SharedExist(st)
    ensures SharedGiven(g, c, st, st', [JTo(j)])
  {
    var h := st'.handle.Keys;
    AskedSinceParts(g, c, h, st1.objs, st2.objs, |st.objs|);
    AskedByLast(g, c, h, st1.objs, j);
    AskedOne(g, c, h, JTo(j));
    assert SharedOwned(st1, c) == SharedOwned(st, c);
    assert SharedOwned(st', c) == SharedOwned(st2, c);
  }

  lemma ShellGiven(g: Graph, c: Constant, st: St, j: JId, size: nat, st2: St)
    requires Valid(g, st) && j in g.heap && j !in st.handle && ConstantOf(g.heap[j]) == None
    requires Given(g, c, MakeShell(st, j, size), st2, Kids(g.heap[j]))
    ensures Given(g, c, st, Finish(g, st2, j, |st.objs|), [JTo(j)])
  {
    var n := |st.objs|;
    var st1 := MakeShell(st, j, size);
    var st' := Finish(g, st2, j, n);
    ShellAdds(st, j, size);
    FinishEnds(g, st2, j, n);
    NotShared(g, c, st, st1, st2, j);
    hide MakeShell; hide Finish; hide Later; hide OwnGiven; hide SharedGiven; hide Added; hide Ended; hide Initialised;
    ShellLater(g, c, st, st1, st2, st', j);
    ShellOwn(g, st, st1, st2, st', j);
    ShellShared(g, c, st, st1, st2, st', j);
  }

  lemma NotShared(g: Graph, c: Constant, st: St, st1: St, st2: St, j: JId)
    requires Valid(g, st) && Added(st, st1, j) && Later(g, c, st1, st2)
    ensures |st.objs| < |st2.objs| && |st2.weakOwned| == |st2.objs| && st2.objs[|st.objs|].src == Some(j)
    ensures |st.objs| !in st2.shared.Values && SharedExist(st)
  {
  }

  // ----- a late object: made when its items have been converted

  lemma LateAdds(g: Graph, st: St, j: JId, vs: seq<NRef>) returns (st1: St)
    requires |st.weakOwned| == |st.objs| && IsLate(g, j)
    ensures Added(st, st1, j) && Ended(g, st1, MakeLate(g, st, j, vs), j, |st.objs|)
  {
    var made := New(st, NObj(Some(j), vs, Borrows(g.heap[j].kind.what)), 1);
    st1 := Register(if Borrows(g.heap[j].kind.what) then IncRefs(made, vs) else made, j, |st.objs|);
    assert st1.objs[..|st.objs|] == st.objs;
    FinishEnds(g, st1, j, |st.objs|);
  }

  lemma LateLater(g: Graph, c: Constant, st0: St, st: St, st1: St, st': St, j: JId)
    requires Later(g, c, st0, st) && Added(st, st1, j) && Ended(g, st1, st', j, |st.objs|)
    requires j in g.heap && ConstantOf(g.heap[j]) == None
    ensures Later(g, c, st0, st') && NewlyBacked(g, c, st0, st') == NewlyBacked(g, c, st0, st)
  {
    assert NewlyBacked(g, c, st0, st') == NewlyBacked(g, c, st0, st);
    forall m | 0 <= m < |st.objs| ensures st'.objs[m].src == st.objs[m].src { assert st1.objs[m] == st.objs[m]; }
  }

  lemma LateOwn(g: Graph, c: Constant, st0: St, st: St, st1: St, st': St, j: JId)
    requires Later(g, c, st0, st) && OwnGiven(g, st0, st) && Added(st, st1, j) && Ended(g, st1, st', j, |st.objs|)
    requires |st.objs| !in st.shared.Values
    ensures OwnGiven(g, st0, st')
  {
    forall m | 0 <= m < |st.objs| ensures st'.objs[m].src == st.objs[m].src && st'.weakOwned[m] == st.weakOwned[m] {
      assert st1.objs[m] == st.objs[m];
    }
  }

  lemma LateShared(g: Graph, c: Constant, st0: St, st: St, st1: St, st': St, j: JId)
    requires Later(g, c, st0, st) && Added(st, st1, j) && Ended(g, st1, st', j, |st.objs|)
    requires IsLate(g, j) && SharedExist(st)
    requires SharedGiven(g, c, st0, st, g.heap[j].refs) && NewlyBacked(g, c, st0, st') == NewlyBacked(g, c, st0, st)
    ensures SharedGiven(g, c, st0, st', [JTo(j)])
  {
    var h, h' := st.handle.Keys, st'.handle.Keys;
    forall k | k in h' && k !in h ensures !Backed(g, c, k) { }
    AskedLater(g, c, h, h', g.heap[j].refs);
    AskedSinceLater(g, c, h, h', st.objs, |st0.objs|);
    AskedByLast(g, c, h', st'.objs, j);
    AskedOne(g, c, h', JTo(j));
    assert SharedOwned(st', c) == SharedOwned(st, c);
  }

  lemma LateGiven(g: Graph, c: Constant, st0: St, st: St, j: JId, vs: seq<NRef>)
    requires Valid(g, st) && IsLate(g, j) && Given(g, c, st0, st, g.heap[j].refs)
    ensures Given(g, c, st0, MakeLate(g, st, j, vs), [JTo(j)])
  {
    var st' := MakeLate(g, st, j, vs);
    var st1 := LateAdds(g, st, j, vs);
    assert |st.objs| !in st.shared.Values && SharedExist(st);
    hide Valid; hide MakeLate; hide Later; hide OwnGiven; hide SharedGiven; hide Added; hide Ended; hide Initialised;
    LateLater(g, c, st0, st, st1, st', j);
    LateOwn(g, c, st0, st, st1, st', j);
    LateShared(g, c, st0, st, st1, st', j);
  }

  // ----- constants

  lemma ConstantOwned(g: Graph, st: St, j: JId, d: Constant)
    requires Valid(g, st) && j !in st.handle
    ensures var (st', n) := MakeConstant(g, st, j, d); Took(g, st, st', j, d, n)
  {
  }

  /** The shared object n of value d was initialised for j. */
  ghost predicate Took(g: Graph, st: St, st': St, j: JId, d: Constant, n: NId) {
    && |st.objs| <= |st'.objs| <= |st.objs| + 1 && |st.weakOwned| == |st.objs| && |st'.weakOwned| == |st'.objs|
    && st'.objs[..|st.objs|] == st.objs && n < |st'.objs|
    && (if d in st.shared then n == st.shared[d] && st'.shared == st.shared && |st'.objs| == |st.objs|
        else n == |st.objs| < |st'.objs| && st'.shared == st.shared[d := n] && st'.objs[n].src == None)
    && st.handle.Keys <= st'.handle.Keys <= st.handle.Keys + {j}
    && st'.flagged == (if d == NoItems || d !in st.flagged then st.flagged + {d} else st.flagged)
    && (j in st'.handle <==> d == NoItems || d !in st.flagged)
    && (forall m :: 0 <= m < |st.objs| && m != n ==> st'.weakOwned[m] == st.weakOwned[m])
    && st'.weakOwned[n] == (if n < |st.objs| then st.weakOwned[n] else 0) + Backend(g, j)
  }

  lemma TookLater(g: Graph, c: Constant, st: St, st': St, j: JId, d: Constant, n: NId)
    requires Took(g, st, st', j, d, n) && j !in st.handle && j in g.heap && ConstantOf(g.heap[j]) == Some(d)
    ensures Later(g, c, st, st')
    ensures NewlyBacked(g, c, st, st') == if c == d && j in g.weak && j in st'.handle then {j} else {}
  {
    assert NewlyBacked(g, c, st, st') == if c == d && j in g.weak && j in st'.handle then {j} else {};
    forall m | 0 <= m < |st.objs| ensures st'.objs[m] == st.objs[m] { assert st'.objs[..|st.objs|][m] == st.objs[m]; }
  }

  lemma TookOwn(g: Graph, st: St, st': St, j: JId, d: Constant, n: NId)
    requires Took(g, st, st', j, d, n)
    ensures OwnGiven(g, st, st')
  {
    assert d in st'.shared && st'.shared[d] == n;
  }

  lemma TookNothingElse(g: Graph, c: Constant, st: St, st': St, j: JId, d: Constant, n: NId)
    requires Took(g, st, st', j, d, n)
    ensures AskedSince(g, c, st'.handle.Keys, st'.objs, |st.objs|) == 0
  {
    if |st'.objs| > |st.objs| {
      assert AskedSince(g, c, st'.handle.Keys, st'.objs[..|st.objs|], |st.objs|) == 0;
    }
  }

  lemma TookOwned(g: Graph, c: Constant, st: St, st': St, j: JId, d: Constant, n: NId)
    requires Valid(g, st) && Took(g, st, st', j, d, n)
    ensures SharedOwned(st', c) == SharedOwned(st, c) + if c == d then Backend(g, j) else 0
  {
    SharedDiffer(g, st, c, d);
    hide Valid;
  }

  lemma SharedDiffer(g: Graph, st: St, c: Constant, d: Constant)
    requires Valid(g, st)
    ensures SharedExist(st) && (c in st.shared && d in st.shared && c != d ==> st.shared[c] != st.shared[d])
  {
  }

  lemma TookShared(g: Graph, c: Constant, st: St, st': St, j: JId, d: Constant, n: NId)
    requires Valid(g, st) && Took(g, st, st', j, d, n) && j in g.heap && ConstantOf(g.heap[j]) == Some(d)
    requires NewlyBacked(g, c, st, st') == if c == d && j in g.weak && j in st'.handle then {j} else {}
    ensures SharedGiven(g, c, st, st', [JTo(j)])
  {
    AskedOne(g, c, st'.handle.Keys, JTo(j));
    TookNothingElse(g, c, st, st', j, d, n);
    TookOwned(g, c, st, st', j, d, n);
    hide Valid; hide AskedSince; hide Asked; hide SharedOwned; hide NewlyBacked;
  }

  lemma ConstantGiven(g: Graph, c: Constant, st: St, j: JId, d: Constant)
    requires Valid(g, st) && j in g.heap && j !in st.handle && ConstantOf(g.heap[j]) == Some(d)
    ensures Given(g, c, st, MakeConstant(g, st, j, d).0, [JTo(j)])
  {
    var (st', n) := MakeConstant(g, st, j, d);
    ConstantOwned(g, st, j, d);
    hide MakeConstant; hide Took; hide Later; hide OwnGiven; hide SharedGiven;
    TookLater(g, c, st, st', j, d, n);
    TookOwn(g, st, st', j, d, n);
    TookShared(g, c, st, st', j, d, n);
  }

  // ----- the conversion

  lemma {:induction false} ConvertGiven(g: Graph, st: St, r: JRef, c: Constant)
    requires Ready(g, st) && InHeap(g, r) && Valid(g, st)
    ensures Given(g, c, st, Convert(g, st, r).0, [r])
    decreases Unregistered(g, st), Rank(g, r), 2, 0
  {
    hide Given;
    if r.JTo? && !g.heap[r.j].kind.Native? && r.j !in st.handle {
      CreateGiven(g, st, r.j, c);
    } else {
      NothingGiven(g, c, st, Convert(g, st, r).0, [r]);
    }
  }

  lemma {:induction false} CreateGiven(g: Graph, st: St, j: JId, c: Constant)
    requires Ready(g, st) && j in g.heap && j !in st.handle && Valid(g, st)
    ensures Given(g, c, st, Create(g, st, j).0, [JTo(j)])
    decreases Unregistered(g, st), LateRank(g, j), 1, 0
  {
    var o := g.heap[j];
    hide Given; hide Valid; hide NoLateCycle; hide Closed;
    if o.kind.Late? {
      CollectKeeps(g, st, j, 0);
      CollectGiven(g, st, j, 0, c);
      assert o.refs[0..] == o.refs;
      LateGiven(g, c, st, Collect(g, st, j, 0).0, j, Collect(g, st, j, 0).1);
    } else if ConstantOf(o).Some? {
      ConstantGiven(g, c, st, j, ConstantOf(o).value);
    } else {
      var size := if Kids(o) == [] then 0 else |o.refs|;
      var st1 := MakeShell(st, j, size);
      MakeShellKeepsValid(g, st, j, size);
      if Kids(o) == [] {
        NothingGiven(g, c, st1, st1, []);
        ShellGiven(g, c, st, j, size, st1);
      } else {
        UnregisteredFalls(g, st, st1);
        FillPreconditions(g, st, j);
        var snap := Snapshot(g, st, o);
        FillGiven(g, st1, j, |st.objs|, snap, 0, c);
        assert o.refs[0..] == o.refs;
        ShellGiven(g, c, st, j, size, Fill(g, st1, j, |st.objs|, snap, 0));
      }
    }
  }

  /** What is in the snapshot has a handle. */
  ghost predicate FromHandles(g: Graph, st: St, j: JId, snap: seq<NRef>) {
    && j in g.heap && |g.heap[j].refs| == |snap|
    && forall i :: 0 <= i < |snap| && snap[i] != Null ==> g.heap[j].refs[i].JTo? && g.heap[j].refs[i].j in st.handle
  }

  lemma {:induction false} FillGiven(g: Graph, st: St, j: JId, n: NId, snap: seq<NRef>, i: nat, c: Constant)
    requires Ready(g, st) && Valid(g, st) && FillReady(g, st, j, n, snap) && i <= |snap| && FromHandles(g, st, j, snap)
    ensures Given(g, c, st, Fill(g, st, j, n, snap, i), g.heap[j].refs[i..])
    decreases Unregistered(g, st), |g.heap| + 1, 1, |snap| - i
  {
    hide Given; hide Fill; hide FillItem; hide Valid; hide Extends; hide NoLateCycle; hide Closed; hide Unregistered;
    var refs := g.heap[j].refs;
    if i < |snap| {
      var (st1, w) := FillItem(g, st, j, snap, i);
      var st2 := SetSlot(st1, n, i, w);
      FillItemKeeps(g, st, j, n, snap, i);
      FillItemGiven(g, st, j, n, snap, i, c);
      FillFrom(g, st, j, n, snap, i);
      FillStep(g, st, st1, j, n, snap, i, w);
      SlotGiven(g, c, st, st1, n, i, w, refs[i]);
      FillGiven(g, st2, j, n, snap, i + 1, c);
      GivenThen(g, c, st, st2, Fill(g, st, j, n, snap, i), [refs[i]], refs[i + 1..]);
      assert refs[i..] == [refs[i]] + refs[i + 1..];
    } else {
      FillEnds(g, st, j, n, snap);
      NothingGiven(g, c, st, st, []);
      assert refs[i..] == [];
    }
  }

  lemma SlotGiven(g: Graph, c: Constant, st: St, st1: St, n: NId, i: nat, w: NRef, r: JRef)
    requires Valid(g, st1) && Given(g, c, st, st1, [r])
    ensures Given(g, c, st, SetSlot(st1, n, i, w), [r])
  {
    hide Given;
    NothingGiven(g, c, st1, SetSlot(st1, n, i, w), []);
    GivenThen(g, c, st, st1, SetSlot(st1, n, i, w), [r], []);
    assert [r] + [] == [r];
  }

  lemma {:induction false} FillItemGiven(g: Graph, st: St, j: JId, n: NId, snap: seq<NRef>, i: nat, c: Constant)
    requires Ready(g, st) && Valid(g, st) && FillReady(g, st, j, n, snap) && i < |snap| && FromHandles(g, st, j, snap)
    ensures Given(g, c, st, FillItem(g, st, j, snap, i).0, [g.heap[j].refs[i]])
    decreases Unregistered(g, st), |g.heap| + 1, 0, 0
  {
    hide Given;
    if snap[i] != Null {
      NothingGiven(g, c, st, IncRef(st, snap[i]), [g.heap[j].refs[i]]);
    } else {
      ConvertGiven(g, st, g.heap[j].refs[i], c);
    }
  }

  lemma {:induction false} CollectGiven(g: Graph, st: St, j: JId, i: nat, c: Constant)
    requires Ready(g, st) && IsLate(g, j) && i <= |g.heap[j].refs| && Valid(g, st)
    ensures Given(g, c, st, Collect(g, st, j, i).0, g.heap[j].refs[i..])
    decreases Unregistered(g, st), LateRank(g, j), 0, |g.heap[j].refs| - i
  {
    hide Convert; hide Collect; hide Given; hide Ready; hide Valid; hide Unregistered; hide LateRank;
    var refs := g.heap[j].refs;
    if i == |refs| {
      CollectEnds(g, st, j);
      NothingGiven(g, c, st, st, []);
      assert refs[i..] == [];
    } else {
      var r := refs[i];
      CollectFrom(g, st, j, i);
      var st1 := Convert(g, st, r).0;
      ConvertGiven(g, st, r, c);
      CollectGiven(g, st1, j, i + 1, c);
      GivenThen(g, c, st, st1, Collect(g, st, j, i).0, [r], refs[i + 1..]);
      assert refs[i..] == [r] + refs[i + 1..];
    }
  }

  lemma CollectEnds(g: Graph, st: St, j: JId)
    requires Ready(g, st) && IsLate(g, j)
    ensures IsLate(g, j) && Collect(g, st, j, |g.heap[j].refs|).0 == st
  {
  }

  /** One more item of a late object. */
  lemma CollectFrom(g: Graph, st: St, j: JId, i: nat)
    requires Ready(g, st) && IsLate(g, j) && i < |g.heap[j].refs| && Valid(g, st)
    ensures var r := g.heap[j].refs[i];
            && InHeap(g, r) && Rank(g, r) < LateRank(g, j)
            && var st1 := Convert(g, st, r).0;
               && Ready(g, st1) && Valid(g, st1) && Unregistered(g, st1) <= Unregistered(g, st)
               && Collect(g, st, j, i).0 == Collect(g, st1, j, i + 1).0
  {
    var r := g.heap[j].refs[i];
    RankFalls(g, j, i);
    ConvertKeeps(g, st, r);
    UnregisteredFalls(g, st, Convert(g, st, r).0);
    hide Convert; hide Valid; hide LateRank; hide NoLateCycle;
  }

  // ----- every reference count, told from the graph

  /** What slots and the constructors' caches account for, and the references left behind by borrowing constructors. */
  function SlotsAndCache(st: St, n: NId): int {
    Slots(st.objs, n, false) + Slots(st.objs, n, true) + if n in st.shared.Values then 1 else 0
  }

  /** A new object made for j has one reference for each slot, one more for each slot of a borrowing object, one if it is
      the result, and one if j has a weak-reference backend. */
  lemma NewCount(g: Graph, st: St, r: JRef, n: NId)
    requires Ready(g, st) && InHeap(g, r) && Valid(g, st)
    requires var st' := Convert(g, st, r).0; |st.objs| <= n < |st'.objs| && st'.objs[n].src.Some?
    ensures var (st', v) := Convert(g, st, r); var j := st'.objs[n].src.value;
            && n < |st'.counts|
            && st'.counts[n] == Slots(st'.objs, n, false) + Slots(st'.objs, n, true) + Is(v, n)
                                + if j in g.weak then 1 else 0
  {
    CountsConserved(g, st, r, n);
    ConvertGiven(g, st, r, NoItems);
    hide Convert;
  }

  /** An object that is not shared gains what its new holders account for, and nothing for a backend. */
  lemma OldCount(g: Graph, st: St, r: JRef, n: NId)
    requires Ready(g, st) && InHeap(g, r) && Valid(g, st) && n < |st.objs| && n !in Convert(g, st, r).0.shared.Values
    ensures var (st', v) := Convert(g, st, r);
            && n < |st'.counts|
            && st'.counts[n] - st.counts[n] == SlotsAndCache(st', n) - SlotsAndCache(st, n) + Is(v, n)
  {
    CountsConserved(g, st, r, n);
    ConvertGiven(g, st, r, NoItems);
    ConvertKeeps(g, st, r);
    hide Convert;
    SharedStay(st, Convert(g, st, r).0);
  }

  lemma SharedStay(st: St, st': St)
    requires Extends(st, st', -1)
    ensures st.shared.Values <= st'.shared.Values
  {
    forall d | d in st.shared ensures st.shared[d] in st'.shared.Values { assert st'.shared[d] == st.shared[d]; }
  }

  /** The shared object of a constant gains a reference for a backend whenever it is initialised for a Java object that
      has one. */
  lemma SharedCount(g: Graph, st: St, r: JRef, c: Constant)
    requires Ready(g, st) && InHeap(g, r) && Valid(g, st) && c in Convert(g, st, r).0.shared
    ensures var (st', v) := Convert(g, st, r); var n := st'.shared[c];
            && n < |st'.counts| && (c in st.shared ==> st.shared[c] == n < |st.counts|)
            && st'.counts[n] - (if c in st.shared then st.counts[n] else 0)
               == SlotsAndCache(st', n) - (if c in st.shared then SlotsAndCache(st, n) else 0) + Is(v, n)
                  + Initialised(g, c, st, st', [r])
  {
    ConvertKeeps(g, st, r);
    ConvertGiven(g, st, r, c);
    var (st', v) := Convert(g, st, r);
    hide Convert;
    CountsConserved(g, st, r, st'.shared[c]);
  }
}
