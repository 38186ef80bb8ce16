/** Which small ints and one-letter strings a conversion gives handles to: of each value one, if it comes to any and the
    shared native object is not flagged as having a handle before; otherwise none. */
module ConversionConstants {
  import opened Basics
  import opened JavaGraph
  import opened Conversion
  import opened ConversionGraph
  import opened ConversionReach

  predicate IsCached(g: Graph, v: nat, j: JId) { j in g.heap && g.heap[j].kind == Cached(v) }

  /** The leaves of value v that are given handles. */
  ghost function NewCached(g: Graph, st: St, st': St, v: nat): set<JId> {
    set j | j in st'.handle && j !in st.handle && IsCached(g, v, j)
  }

  /** The flag follows the handles given, and there is at most one. */
  ghost predicate FlagFits(g: Graph, st: St, st': St, v: nat) {
    && st.handle.Keys <= st'.handle.Keys && st.flagged <= st'.flagged
    && (Value(v) in st.flagged ==> NewCached(g, st, st', v) == {})
    && (Value(v) in st'.flagged <==> Value(v) in st.flagged || NewCached(g, st, st', v) != {})
    && |NewCached(g, st, st', v)| <= 1
  }

  lemma FlagSame(g: Graph, st: St, st': St, v: nat)
    requires st.handle.Keys <= st'.handle.Keys && st'.flagged == st.flagged && NewCached(g, st, st', v) == {}
    ensures FlagFits(g, st, st', v)
  {
  }

  lemma FlagThen(g: Graph, a: St, b: St, c: St, v: nat)
    requires FlagFits(g, a, b, v) && FlagFits(g, b, c, v)
    ensures FlagFits(g, a, c, v)
  {
    assert NewCached(g, a, c, v) == NewCached(g, a, b, v) + NewCached(g, b, c, v);
  }

  /** A step that registers no such leaf and sets no such flag. */
  lemma FlagNext(g: Graph, a: St, b: St, c: St, v: nat)
    requires FlagFits(g, a, b, v) && b.handle.Keys <= c.handle.Keys && NewCached(g, b, c, v) == {}
    requires b.flagged <= c.flagged && (Value(v) in c.flagged <==> Value(v) in b.flagged)
    ensures FlagFits(g, a, c, v)
  {
    assert NewCached(g, a, c, v) == NewCached(g, a, b, v) + NewCached(g, b, c, v);
    assert NewCached(g, a, c, v) == NewCached(g, a, b, v);
  }

  // ----- constants

  lemma ConstantView(g: Graph, st: St, j: JId, c: Constant)
    ensures var st' := MakeConstant(g, st, j, c).0;
            && st.handle.Keys <= st'.handle.Keys <= st.handle.Keys + {j}
            && st'.flagged == (if c == NoItems || c !in st.flagged then st.flagged + {c} else st.flagged)
            && (c != NoItems && c in st.flagged ==> st'.handle == st.handle)
            && (c == NoItems || c !in st.flagged ==> j in st'.handle)
  {
    var (st1, n) := TakeShared(st, c);
    assert st1.handle == st.handle && st1.flagged == st.flagged;
    var st2 := RegisterShared(st1, c, j, n);
    hide TakeShared;
    FinishChangesCountsOnly(g, st2, j, n);
  }

  lemma ConstantFlags(g: Graph, st: St, j: JId, v: nat)
    requires IsConstant(g, j) && j !in st.handle
    ensures FlagFits(g, st, MakeConstant(g, st, j, ConstantOf(g.heap[j]).value).0, v)
  {
    var c := ConstantOf(g.heap[j]).value;
    var st' := MakeConstant(g, st, j, c).0;
    ConstantView(g, st, j, c);
    hide MakeConstant;
    if IsCached(g, v, j) && j in st'.handle {
      assert NewCached(g, st, st', v) == {j};
    } else {
      assert NewCached(g, st, st', v) == {};
    }
  }

  // ----- the conversion

  lemma {:induction false} ConvertFlags(g: Graph, st: St, r: JRef, v: nat)
    requires Ready(g, st) && InHeap(g, r)
    ensures FlagFits(g, st, Convert(g, st, r).0, v)
    decreases Unregistered(g, st), Rank(g, r), 2, 0
  {
    if r.JTo? && !g.heap[r.j].kind.Native? && r.j !in st.handle {
      CreateFlags(g, st, r.j, v);
    } else {
      FlagSame(g, st, Convert(g, st, r).0, v);
    }
  }

  lemma {:induction false} CreateFlags(g: Graph, st: St, j: JId, v: nat)
    requires Ready(g, st) && j in g.heap && j !in st.handle
    ensures FlagFits(g, st, Create(g, st, j).0, v)
    decreases Unregistered(g, st), LateRank(g, j), 1, 0
  {
    var o := g.heap[j];
    hide FlagFits; hide NoLateCycle; hide Closed;
    if o.kind.Late? {
      CollectFlags(g, st, j, 0, v);
      LateFlags(g, st, Collect(g, st, j, 0).0, j, Collect(g, st, j, 0).1, v);
    } else if ConstantOf(o).Some? {
      ConstantFlags(g, st, j, v);
    } else {
      var size := if Kids(o) == [] then 0 else |o.refs|;
      var st1 := MakeShell(st, j, size);
      ShellFlags(g, st, j, size, v);
      if Kids(o) == [] {
        FinishFlags(g, st, st1, j, |st.objs|, v);
      } else {
        UnregisteredFalls(g, st, st1);
        var snap := Snapshot(g, st, o);
        FillFlags(g, st1, j, |st.objs|, snap, 0, v);
        var st2 := Fill(g, st1, j, |st.objs|, snap, 0);
        FlagThen(g, st, st1, st2, v);
        FinishFlags(g, st, st2, j, |st.objs|, v);
      }
    }
  }

  lemma LateFlags(g: Graph, st0: St, st: St, j: JId, vs: seq<NRef>, v: nat)
    requires FlagFits(g, st0, st, v) && IsLate(g, j)
    ensures FlagFits(g, st0, MakeLate(g, st, j, vs), v)
  {
    FlagNext(g, st0, st, MakeLate(g, st, j, vs), v);
  }

  lemma ShellFlags(g: Graph, st: St, j: JId, size: nat, v: nat)
    requires j in g.heap && !g.heap[j].kind.Cached?
    ensures FlagFits(g, st, MakeShell(st, j, size), v)
  {
    FlagSame(g, st, MakeShell(st, j, size), v);
  }

  lemma FinishFlags(g: Graph, st0: St, st: St, j: JId, n: NId, v: nat)
    requires FlagFits(g, st0, st, v)
    ensures FlagFits(g, st0, Finish(g, st, j, n), v)
  {
    FlagNext(g, st0, st, Finish(g, st, j, n), v);
  }

  lemma SlotFlags(g: Graph, st0: St, st: St, n: NId, i: nat, w: NRef, v: nat)
    requires FlagFits(g, st0, st, v)
    ensures FlagFits(g, st0, SetSlot(st, n, i, w), v)
  {
    FlagNext(g, st0, st, SetSlot(st, n, i, w), v);
  }

  lemma {:induction false} FillFlags(g: Graph, st: St, j: JId, n: NId, snap: seq<NRef>, i: nat, v: nat)
    requires Ready(g, st) && j in g.heap && i <= |g.heap[j].refs| == |snap|
    ensures FlagFits(g, st, Fill(g, st, j, n, snap, i), v)
    decreases Unregistered(g, st), |g.heap| + 1, 1, |snap| - i
  {
    hide FlagFits; hide Fill; hide FillItem; hide NoLateCycle; hide Closed; hide Unregistered;
    if i == |snap| {
      FillEnds(g, st, j, n, snap);
      FlagSame(g, st, st, v);
    } else {
      var (st1, w) := FillItem(g, st, j, snap, i);
      var st2 := SetSlot(st1, n, i, w);
      FillItemFlags(g, st, j, snap, i, v);
      SlotFlags(g, st, st1, n, i, w, v);
      FillFrom(g, st, j, n, snap, i);
      FillFlags(g, st2, j, n, snap, i + 1, v);
      FlagThen(g, st, st2, Fill(g, st, j, n, snap, i), v);
    }
  }

  lemma {:induction false} FillItemFlags(g: Graph, st: St, j: JId, snap: seq<NRef>, i: nat, v: nat)
    requires Ready(g, st) && j in g.heap && i < |g.heap[j].refs| == |snap|
    ensures FlagFits(g, st, FillItem(g, st, j, snap, i).0, v)
    decreases Unregistered(g, st), |g.heap| + 1, 0, 0
  {
    if snap[i] != Null {
      FlagSame(g, st, IncRef(st, snap[i]), v);
    } else {
      ItemInHeap(g, j, i);
      ConvertFlags(g, st, g.heap[j].refs[i], v);
    }
  }

  lemma {:induction false} CollectFlags(g: Graph, st: St, j: JId, i: nat, v: nat)
    requires Ready(g, st) && IsLate(g, j) && i <= |g.heap[j].refs|
    ensures FlagFits(g, st, Collect(g, st, j, i).0, v)
    decreases Unregistered(g, st), LateRank(g, j), 0, |g.heap[j].refs| - i
  {
    hide Convert; hide FlagFits; hide NoLateCycle;
    if i == |g.heap[j].refs| {
      FlagSame(g, st, st, v);
    } else {
      var r := g.heap[j].refs[i];
      RankFalls(g, j, i);
      var st1 := Convert(g, st, r).0;
      ConvertFlags(g, st, r, v);
      UnregisteredFalls(g, st, st1);
      CollectFlags(g, st1, j, i + 1, v);
      FlagThen(g, st, st1, Collect(g, st, j, i).0, v);
    }
  }

  // ----- what a whole conversion gives handles to

  /** The leaves of value v without handles that the conversion comes to. */
  ghost function CachedAhead(g: Graph, st: St, r: JRef, v: nat): set<JId> {
    set k | k in g.heap && IsCached(g, v, k) && k !in st.handle
            && (r == JTo(k) || (Unmirrored(g, Handles(g, st), r) && k in Reached(g, Handles(g, st), r.j)))
  }

  lemma LeafFound(g: Graph, st: St, st': St, p: seq<JId>)
    requires Sound(g, st') && NewDone(g, st, st') && IsPath(Outside(g, Handles(g, st)), false, p)
    requires p[0] in st'.handle && |p| > 1 && p[|p| - 1] in g.heap && g.heap[p[|p| - 1]].kind.Cached?
    ensures p[|p| - 1] in st'.handle || FlaggedLeaf(g, st', p[|p| - 1])
  {
    var h := Outside(g, Handles(g, st));
    var x, k := p[|p| - 2], p[|p| - 1];
    assert Edge(h, false, p[|p| - 2], p[|p| - 2 + 1]);
    var q := p[..|p| - 1];
    forall i | 0 <= i < |q| - 1 ensures Edge(h, false, q[i], q[i + 1]) { assert Edge(h, false, p[i], p[i + 1]); }
    PathRegistered(g, st, st', q);
    var n := st'.handle[x];
    assert Stands(g, st', x, n) && Done(g, st', n);
    var i :| 0 <= i < |Kids(g.heap[x])| && Kids(g.heap[x])[i] == JTo(k);
    assert Rep(g, st', JTo(k), st'.objs[n].slots[i]);
  }

  /** Whatever such leaf is ahead is found with a handle or a flag. */
  lemma AheadFound(g: Graph, st: St, r: JRef, v: nat, k: JId)
    requires Ready(g, st) && InHeap(g, r) && Valid(g, st) && Sound(g, st) && k in CachedAhead(g, st, r, v)
    ensures var st' := Convert(g, st, r).0; k in st'.handle || Value(v) in st'.flagged
  {
    var st' := Convert(g, st, r).0;
    ConvertDone(g, st, r);
    if r != JTo(k) {
      HandlesExactly(g, st, r);
      var p :| IsPath(Outside(g, Handles(g, st)), false, p) && p[0] == r.j && p[|p| - 1] == k;
      hide Convert;
      LeafFound(g, st, st', p);
    }
  }

  /** Of the leaves of one value that are ahead, exactly one is given a handle if the shared object is not flagged, and
      none otherwise; no other leaf of that value is given one. */
  lemma CachedHandles(g: Graph, st: St, r: JRef, v: nat)
    requires Ready(g, st) && InHeap(g, r) && Valid(g, st) && Sound(g, st)
    ensures var given := NewCached(g, st, Convert(g, st, r).0, v);
            && given <= CachedAhead(g, st, r, v)
            && |given| == if Value(v) in st.flagged || CachedAhead(g, st, r, v) == {} then 0 else 1
  {
    var st' := Convert(g, st, r).0;
    var given := NewCached(g, st, st', v);
    ConvertFlags(g, st, r, v);
    ConvertReach(g, st, r);
    NewAhead(g, st, r, v);
    hide Convert;
    if Value(v) !in st.flagged && CachedAhead(g, st, r, v) != {} {
      var k :| k in CachedAhead(g, st, r, v);
      AheadFound(g, st, r, v, k);
      assert k in st'.handle ==> k in given;
    }
  }

  /** Each leaf: it is given a handle exactly if the shared object is not flagged when the conversion comes to it, and if
      not then, by no conversion that follows. */
  lemma LeafHandledIff(g: Graph, st: St, j: JId, r: JRef)
    requires Ready(g, st) && InHeap(g, r) && j in g.heap && g.heap[j].kind.Cached? && j !in st.handle
    ensures var st' := Convert(g, st, JTo(j)).0;
            && (j in st'.handle <==> Value(g.heap[j].kind.v) !in st.flagged)
            && Ready(g, st') && (j in Convert(g, st', r).0.handle <==> Value(g.heap[j].kind.v) !in st.flagged)
  {
    var v := g.heap[j].kind.v;
    var c := Value(v);
    var st' := Convert(g, st, JTo(j)).0;
    assert ConstantOf(g.heap[j]) == Some(c);
    assert Create(g, st, j) == MakeConstant(g, st, j, c);
    assert st' == MakeConstant(g, st, j, c).0;
    ConstantView(g, st, j, c);
    hide Convert; hide MakeConstant;
    ConvertFlags(g, st', r, v);
    var later := Convert(g, st', r).0;
    assert j in NewCached(g, st', later, v) <==> j in later.handle && j !in st'.handle;
  }

  lemma NewAhead(g: Graph, st: St, r: JRef, v: nat)
    requires Ready(g, st) && InHeap(g, r)
    ensures NewCached(g, st, Convert(g, st, r).0, v) <= CachedAhead(g, st, r, v)
  {
    ConvertReach(g, st, r);
    forall k | k in NewCached(g, st, Convert(g, st, r).0, v) ensures k in CachedAhead(g, st, r, v) {
      if !Unmirrored(g, Handles(g, st), r) && r != JTo(k) { OnlyItself(g, st, r, k); }
    }
  }

  lemma OnlyItself(g: Graph, st: St, r: JRef, k: JId)
    requires Ready(g, st) && InHeap(g, r) && !Unmirrored(g, Handles(g, st), r) && r != JTo(k)
    ensures k in Convert(g, st, r).0.handle ==> k in st.handle
  {
    if r.JTo? && !g.heap[r.j].kind.Native? && r.j !in st.handle {
      ConstantView(g, st, r.j, ConstantOf(g.heap[r.j]).value);
      assert Convert(g, st, r).0 == MakeConstant(g, st, r.j, ConstantOf(g.heap[r.j]).value).0;
    }
  }
}
