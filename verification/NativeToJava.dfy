/** Conversion of native object graphs to Java (JyNI_InitJythonPyObject with the jyInit and py2jy functions of
    JySync.c). Tuples, cells, methods, instances and the like convert what they refer to before they are registered
    themselves; lists and truncated objects become lazy backends and convert nothing. */
module NativeToJava {
  import opened Basics

  /** `Truncated`: dictionaries, sets, modules, code and the like; `Leaf`: numbers and strings. */
  datatype Kind =
    | Tuple | Cell | Class | Instance | Method | ClassMethod | StaticMethod | DictProxy | Property
    | List | Truncated | Leaf

  datatype NativeObj = NativeObj(kind: Kind, refs: seq<NId>)

  /** What the object refers to is converted before the object is registered: by jyInit, or by py2jy for cells. */
  predicate Eager(o: NativeObj) {
    match o.kind
    case List | Truncated | Leaf => false
    case _ => true
  }

  type Graph = map<NId, NativeObj>

  ghost predicate Closed(g: Graph) {
    forall n, i :: n in g && 0 <= i < |g[n].refs| ==> g[n].refs[i] in g
  }

  function Elements(s: seq<NId>): set<NId> { set n | n in s }

  lemma ElementsParts(a: seq<NId>, b: seq<NId>, n: NId)
    ensures Elements(a + b) == Elements(a) + Elements(b) && Elements([n]) == {n} && Elements([]) == {}
  {
  }

  // ----- the conversion, to a given depth of recursion

  /** The objects that converting n creates counterparts for, in order; None if the recursion goes deeper. */
  function Convert(g: Graph, mirrored: set<NId>, n: NId, depth: nat): Option<seq<NId>>
    requires n in g
    decreases depth, 1, 0
  {
    if n in mirrored then Some([])
    else if !Eager(g[n]) then Some([n])
    else if depth == 0 then None
    else match ConvertAll(g, mirrored, g[n].refs, depth - 1)
         case None => None
         case Some(made) => Some(made + [n])
  }

  function ConvertAll(g: Graph, mirrored: set<NId>, refs: seq<NId>, depth: nat): Option<seq<NId>>
    decreases depth, 2, |refs|
  {
    if refs == [] then Some([])
    else if refs[0] !in g then None
    else match Convert(g, mirrored, refs[0], depth)
         case None => None
         case Some(made) =>
           match ConvertAll(g, mirrored + Elements(made), refs[1..], depth)
           case None => None
           case Some(rest) => Some(made + rest)
  }

  // ----- when it terminates

  /** Converting n means converting what it refers to first. */
  predicate Blocking(g: Graph, mirrored: set<NId>, n: NId) { n in g && Eager(g[n]) && n !in mirrored }

  predicate RefersInto(g: Graph, n: NId, s: set<NId>)
    requires n in g
  {
    exists k :: k in g[n].refs && k in s
  }

  /** Unmirrored eager objects each of which refers to another of them: in a finite graph, a cycle and what leads
      there. */
  ghost predicate Trap(g: Graph, mirrored: set<NId>, trap: set<NId>) {
    forall n :: n in trap ==> Blocking(g, mirrored, n) && RefersInto(g, n, trap)
  }

  /** Nothing in a trap is ever converted. */
  lemma {:induction false} TrapHolds(g: Graph, mirrored: set<NId>, trap: set<NId>, n: NId, depth: nat)
    requires n in g && Trap(g, mirrored, trap)
    ensures n in trap ==> Convert(g, mirrored, n, depth) == None
    ensures Convert(g, mirrored, n, depth).Some? ==> Elements(Convert(g, mirrored, n, depth).value) !! trap
    decreases depth, 1, 0
  {
    ElementsParts([], [], n);
    if n !in mirrored && Eager(g[n]) && depth > 0 {
      TrapHoldsAll(g, mirrored, trap, g[n].refs, depth - 1);
      var all := ConvertAll(g, mirrored, g[n].refs, depth - 1);
      if all.Some? { ElementsParts(all.value, [n], n); }
    }
    hide Elements;
  }

  lemma {:induction false} TrapHoldsAll(g: Graph, mirrored: set<NId>, trap: set<NId>, refs: seq<NId>, depth: nat)
    requires Trap(g, mirrored, trap)
    ensures (exists k :: k in refs && k in trap) ==> ConvertAll(g, mirrored, refs, depth) == None
    ensures ConvertAll(g, mirrored, refs, depth).Some? ==> Elements(ConvertAll(g, mirrored, refs, depth).value) !! trap
    decreases depth, 2, |refs|
  {
    if refs != [] && refs[0] in g {
      TrapHolds(g, mirrored, trap, refs[0], depth);
      var first := Convert(g, mirrored, refs[0], depth);
      if first.Some? {
        TrapHoldsAll(g, mirrored + Elements(first.value), trap, refs[1..], depth);
        var rest := ConvertAll(g, mirrored + Elements(first.value), refs[1..], depth);
        if rest.Some? { ElementsParts(first.value, rest.value, 0); }
      }
    }
    hide Elements;
    hide Trap;
    hide Convert;
  }

  /** Whatever else is mirrored meanwhile, this depth is enough. */
  ghost predicate Enough(g: Graph, mirrored: set<NId>, n: NId, depth: nat)
    requires n in g
  {
    forall more, d :: mirrored <= more && depth <= d ==> Convert(g, more, n, d).Some?
  }

  ghost predicate Terminates(g: Graph, mirrored: set<NId>, n: NId)
    requires n in g
  {
    exists depth :: Enough(g, mirrored, n, depth)
  }

  lemma Depth(g: Graph, mirrored: set<NId>, n: NId) returns (depth: nat)
    requires n in g && Terminates(g, mirrored, n)
    ensures Enough(g, mirrored, n, depth)
  {
    depth :| Enough(g, mirrored, n, depth);
  }

  lemma {:induction false} AllTerminate(g: Graph, mirrored: set<NId>, refs: seq<NId>) returns (depth: nat)
    requires forall k :: k in refs ==> k in g && Terminates(g, mirrored, k)
    ensures forall more, d :: mirrored <= more && depth <= d ==> ConvertAll(g, more, refs, d).Some?
  {
    if refs == [] {
      depth := 0;
    } else {
      assert Terminates(g, mirrored, refs[0]);
      var d0 := Depth(g, mirrored, refs[0]);
      var d1 := AllTerminate(g, mirrored, refs[1..]);
      depth := d0 + d1;
      forall more, d | mirrored <= more && depth <= d ensures ConvertAll(g, more, refs, d).Some? {
        assert Convert(g, more, refs[0], d).Some?;
        var made := Convert(g, more, refs[0], d).value;
        assert mirrored <= more + Elements(made);
      }
    }
  }

  lemma OneMore(g: Graph, mirrored: set<NId>, n: NId)
    requires Closed(g) && n in g && forall k :: k in g[n].refs ==> Terminates(g, mirrored, k)
    ensures Terminates(g, mirrored, n)
  {
    var depth := AllTerminate(g, mirrored, g[n].refs);
    assert Enough(g, mirrored, n, depth + 1);
  }

  /** Everything that does not terminate is one trap. */
  ghost function Endless(g: Graph, mirrored: set<NId>): set<NId> { set n | n in g && !Terminates(g, mirrored, n) }

  lemma EndlessIsTrap(g: Graph, mirrored: set<NId>)
    requires Closed(g)
    ensures Trap(g, mirrored, Endless(g, mirrored))
  {
    var trap := Endless(g, mirrored);
    forall n | n in trap ensures Blocking(g, mirrored, n) && RefersInto(g, n, trap) {
      assert Enough(g, mirrored, n, 0) || Blocking(g, mirrored, n);
      if forall k :: k in g[n].refs ==> k !in trap {
        forall k | k in g[n].refs ensures Terminates(g, mirrored, k) { assert k in g; }
        OneMore(g, mirrored, n);
      }
    }
  }

  ghost predicate InTrap(g: Graph, mirrored: set<NId>, n: NId) {
    exists trap :: n in trap && Trap(g, mirrored, trap)
  }

  lemma NotEndless(g: Graph, mirrored: set<NId>, n: NId)
    requires Closed(g) && n in g && !InTrap(g, mirrored, n)
    ensures exists depth: nat :: Convert(g, mirrored, n, depth).Some?
  {
    EndlessIsTrap(g, mirrored);
    assert n !in Endless(g, mirrored);
    var depth: nat :| Enough(g, mirrored, n, depth);
    assert Convert(g, mirrored, n, depth).Some?;
  }

  /** The conversion terminates exactly if the object is in no trap. */
  lemma TerminatesIff(g: Graph, mirrored: set<NId>, n: NId)
    requires Closed(g) && n in g
    ensures (exists depth: nat :: Convert(g, mirrored, n, depth).Some?) <==> !InTrap(g, mirrored, n)
  {
    if InTrap(g, mirrored, n) {
      var trap :| n in trap && Trap(g, mirrored, trap);
      forall depth: nat ensures Convert(g, mirrored, n, depth) == None { TrapHolds(g, mirrored, trap, n, depth); }
    } else {
      NotEndless(g, mirrored, n);
    }
  }

  /** No cycle of unmirrored eager objects: they can be ranked so that each only refers to lower ones. */
  ghost predicate Ranked(g: Graph, mirrored: set<NId>, rank: map<NId, nat>) {
    forall n, k :: Blocking(g, mirrored, n) && k in g[n].refs && Blocking(g, mirrored, k) ==>
      n in rank && k in rank && rank[k] < rank[n]
  }

  lemma TrapNext(g: Graph, mirrored: set<NId>, trap: set<NId>, n: NId) returns (k: NId)
    requires Trap(g, mirrored, trap) && n in trap
    ensures Blocking(g, mirrored, n) && k in g[n].refs && k in trap && Blocking(g, mirrored, k)
  {
    assert RefersInto(g, n, trap);
    k :| k in g[n].refs && k in trap;
    hide RefersInto;
  }

  lemma {:induction false} NoTrapRanked(g: Graph, mirrored: set<NId>, rank: map<NId, nat>, trap: set<NId>, n: NId)
    requires Ranked(g, mirrored, rank) && Trap(g, mirrored, trap)
    ensures n !in trap
    decreases if n in rank then rank[n] else 0
  {
    hide Trap;
    if n in trap {
      var k := TrapNext(g, mirrored, trap, n);
      NoTrapRanked(g, mirrored, rank, trap, k);
    }
  }

  /** Cycles through lists or truncated objects do no harm: without a cycle of unmirrored eager objects the conversion
      terminates. */
  lemma TerminatesRanked(g: Graph, mirrored: set<NId>, rank: map<NId, nat>, n: NId)
    requires Closed(g) && n in g && Ranked(g, mirrored, rank)
    ensures exists depth: nat :: Convert(g, mirrored, n, depth).Some?
  {
    TerminatesIff(g, mirrored, n);
    if InTrap(g, mirrored, n) {
      var trap :| n in trap && Trap(g, mirrored, trap);
      NoTrapRanked(g, mirrored, rank, trap, n);
    }
  }

  /** The tuples alone form no cycle. */
  ghost predicate TuplesRanked(g: Graph, mirrored: set<NId>, rank: map<NId, nat>) {
    forall n, k :: IsTuple(g, mirrored, n) && k in g[n].refs && IsTuple(g, mirrored, k) ==>
      n in rank && k in rank && rank[k] < rank[n]
  }

  predicate IsTuple(g: Graph, mirrored: set<NId>, n: NId) { Blocking(g, mirrored, n) && g[n].kind == Tuple }

  /** Then whatever does not terminate comes to an eager object of another kind that does not. */
  lemma {:induction false} TrapNeedsOther(g: Graph, mirrored: set<NId>, rank: map<NId, nat>, trap: set<NId>, n: NId)
    requires TuplesRanked(g, mirrored, rank) && Trap(g, mirrored, trap) && n in trap
    ensures exists k :: k in trap && k in g && g[k].kind != Tuple
    decreases if n in rank then rank[n] else 0
  {
    assert Blocking(g, mirrored, n);
    if g[n].kind == Tuple {
      var k := TrapNext(g, mirrored, trap, n);
      hide Trap;
      if g[k].kind == Tuple {
        assert IsTuple(g, mirrored, n) && IsTuple(g, mirrored, k);
        TrapNeedsOther(g, mirrored, rank, trap, k);
      }
    }
  }

  /** So tuples that form no cycle suffice where no other eager object is left to convert ... */
  lemma TuplesSuffice(g: Graph, mirrored: set<NId>, rank: map<NId, nat>, n: NId)
    requires Closed(g) && n in g && TuplesRanked(g, mirrored, rank)
    requires forall k :: Blocking(g, mirrored, k) ==> g[k].kind == Tuple
    ensures exists depth: nat :: Convert(g, mirrored, n, depth).Some?
  {
    TerminatesIff(g, mirrored, n);
    if InTrap(g, mirrored, n) {
      var trap :| n in trap && Trap(g, mirrored, trap);
      TrapNeedsOther(g, mirrored, rank, trap, n);
    }
  }

  /** ... but not elsewhere: an object that holds itself is never converted, unless it is a list or truncated; without a
      tuple in the graph if it is none itself. */
  lemma SelfHeldWitness(kind: Kind, depth: nat)
    ensures var g: Graph := map[0 := NativeObj(kind, [0])];
            && Closed(g) && (kind != Tuple ==> TuplesRanked(g, {}, map[]))
            && Convert(g, {}, 0, depth) == if kind in {List, Truncated, Leaf} then Some([0]) else None
  {
    var g: Graph := map[0 := NativeObj(kind, [0])];
    assert RefersInto(g, 0, {0});
    if kind !in {List, Truncated, Leaf} { TrapHolds(g, {}, {0}, 0, depth); }
  }

  // ----- each object once

  function Following(path: seq<NId>, i: nat, n: NId): NId { if i + 1 < |path| then path[i + 1] else n }

  /** A path of conversions under way: eager unmirrored objects, each referring to the next, the last to n. */
  ghost predicate UnderWay(g: Graph, mirrored: set<NId>, path: seq<NId>, n: NId) {
    && (forall i :: 0 <= i < |path| ==> path[i] in g && path[i] !in mirrored && Eager(g[path[i]]))
    && (forall i :: 0 <= i < |path| ==> Following(path, i, n) in g[path[i]].refs)
  }

  /** A conversion that reaches an object under way never ends. */
  lemma ReachedAgain(g: Graph, mirrored: set<NId>, path: seq<NId>, n: NId, depth: nat)
    requires UnderWay(g, mirrored, path, n) && n in path && n in g
    ensures Convert(g, mirrored, n, depth) == None
  {
    var trap := Elements(path);
    forall x | x in trap ensures Blocking(g, mirrored, x) && RefersInto(g, x, trap) {
      var i :| 0 <= i < |path| && path[i] == x;
      var k := Following(path, i, n);
      assert k in path && k in g[x].refs && k in trap;
    }
    assert n in trap;
    TrapHolds(g, mirrored, trap, n, depth);
  }

  /** What a conversion creates: each object once, none that has a counterpart or is under way. */
  ghost predicate CreatedOnce(mirrored: set<NId>, path: seq<NId>, made: seq<NId>) {
    NoDuplicates(made) && Elements(made) !! mirrored && Elements(made) !! Elements(path)
  }

  lemma CreatedLast(mirrored: set<NId>, path: seq<NId>, made: seq<NId>, n: NId)
    requires CreatedOnce(mirrored, path + [n], made) && n !in mirrored && n !in path
    ensures CreatedOnce(mirrored, path, made + [n])
  {
    ElementsParts(path, [n], n);
    ElementsParts(made, [n], n);
    assert n !in made by { assert n in Elements(path + [n]); }
  }

  lemma CreatedBoth(mirrored: set<NId>, path: seq<NId>, made: seq<NId>, rest: seq<NId>)
    requires CreatedOnce(mirrored, path, made) && CreatedOnce(mirrored + Elements(made), path, rest)
    ensures CreatedOnce(mirrored, path, made + rest)
  {
    ElementsParts(made, rest, 0);
    forall i, j | 0 <= i < |made| && 0 <= j < |rest| ensures made[i] != rest[j] {
      assert made[i] in Elements(made) && rest[j] in Elements(rest);
    }
  }

  lemma {:induction false} EachOnce(g: Graph, mirrored: set<NId>, path: seq<NId>, n: NId, depth: nat)
    requires Closed(g) && n in g && UnderWay(g, mirrored, path, n) && Convert(g, mirrored, n, depth).Some?
    ensures CreatedOnce(mirrored, path, Convert(g, mirrored, n, depth).value)
    ensures n in mirrored + Elements(Convert(g, mirrored, n, depth).value)
    decreases depth, 1, 0
  {
    ElementsParts([], [], n);
    if n !in mirrored {
      if n in path { ReachedAgain(g, mirrored, path, n, depth); }
      if Eager(g[n]) {
        PathGrows(g, mirrored, path, n);
        EachOnceAll(g, mirrored, path + [n], g[n].refs, depth - 1);
        var made := ConvertAll(g, mirrored, g[n].refs, depth - 1).value;
        CreatedLast(mirrored, path, made, n);
        ElementsParts(made, [n], n);
      } else {
        assert n !in Elements(path);
      }
    }
  }

  lemma PathGrows(g: Graph, mirrored: set<NId>, path: seq<NId>, n: NId)
    requires UnderWay(g, mirrored, path, n) && n in g && n !in mirrored && Eager(g[n])
    ensures forall k :: k in g[n].refs ==> UnderWay(g, mirrored, path + [n], k)
  {
    var q := path + [n];
    forall k, i | k in g[n].refs && 0 <= i < |q| ensures Following(q, i, k) in g[q[i]].refs {
      if i < |path| { assert Following(q, i, k) == Following(path, i, n); }
    }
  }

  lemma {:induction false} EachOnceAll(g: Graph, mirrored: set<NId>, path: seq<NId>, refs: seq<NId>, depth: nat)
    requires Closed(g) && (forall k :: k in refs ==> UnderWay(g, mirrored, path, k))
    requires ConvertAll(g, mirrored, refs, depth).Some?
    ensures CreatedOnce(mirrored, path, ConvertAll(g, mirrored, refs, depth).value)
    ensures forall k :: k in refs ==> k in mirrored + Elements(ConvertAll(g, mirrored, refs, depth).value)
    decreases depth, 2, |refs|
  {
    if refs == [] {
      assert CreatedOnce(mirrored, path, []);
    } else {
      EachOnce(g, mirrored, path, refs[0], depth);
      var made := Convert(g, mirrored, refs[0], depth).value;
      forall k | k in refs[1..] ensures UnderWay(g, mirrored + Elements(made), path, k) {
        StillUnderWay(g, mirrored, path, made, k);
      }
      EachOnceAll(g, mirrored + Elements(made), path, refs[1..], depth);
      var rest := ConvertAll(g, mirrored + Elements(made), refs[1..], depth).value;
      CreatedBoth(mirrored, path, made, rest);
      ElementsParts(made, rest, 0);
      assert refs == [refs[0]] + refs[1..];
    }
  }

  lemma StillUnderWay(g: Graph, mirrored: set<NId>, path: seq<NId>, made: seq<NId>, k: NId)
    requires UnderWay(g, mirrored, path, k) && Elements(made) !! Elements(path)
    ensures UnderWay(g, mirrored + Elements(made), path, k)
  {
    forall i | 0 <= i < |path| ensures path[i] !in mirrored + Elements(made) { assert path[i] in Elements(path); }
  }

  /** A conversion that ends creates each counterpart once, and one for the object itself unless it has one. */
  lemma ConvertsOnce(g: Graph, mirrored: set<NId>, n: NId, depth: nat)
    requires Closed(g) && n in g && Convert(g, mirrored, n, depth).Some?
    ensures var made := Convert(g, mirrored, n, depth).value;
            NoDuplicates(made) && Elements(made) !! mirrored && n in mirrored + Elements(made)
  {
    EachOnce(g, mirrored, [], n, depth);
  }

  // ----- what is created, and in which order

  /** What an eager object refers to has its counterpart before the object's own is registered. */
  ghost predicate ItemsFirst(g: Graph, mirrored: set<NId>, made: seq<NId>) {
    forall i, k :: 0 <= i < |made| && made[i] in g && Eager(g[made[i]]) && k in g[made[i]].refs ==>
      k in mirrored + Elements(made[..i])
  }

  lemma ItemsFirstLast(g: Graph, mirrored: set<NId>, made: seq<NId>, n: NId)
    requires ItemsFirst(g, mirrored, made)
    requires n in g && Eager(g[n]) ==> forall k :: k in g[n].refs ==> k in mirrored + Elements(made)
    ensures ItemsFirst(g, mirrored, made + [n])
  {
    var all := made + [n];
    forall i, k | 0 <= i < |all| && all[i] in g && Eager(g[all[i]]) && k in g[all[i]].refs
      ensures k in mirrored + Elements(all[..i])
    {
      if i < |made| { assert all[..i] == made[..i]; } else { assert all[..i] == made; }
    }
  }

  lemma ItemsFirstBoth(g: Graph, mirrored: set<NId>, made: seq<NId>, rest: seq<NId>)
    requires ItemsFirst(g, mirrored, made) && ItemsFirst(g, mirrored + Elements(made), rest)
    ensures ItemsFirst(g, mirrored, made + rest)
  {
    var all := made + rest;
    forall i, k | 0 <= i < |all| && all[i] in g && Eager(g[all[i]]) && k in g[all[i]].refs
      ensures k in mirrored + Elements(all[..i])
    {
      if i < |made| {
        assert all[..i] == made[..i];
      } else {
        assert all[i] == rest[i - |made|] && all[..i] == made + rest[..i - |made|];
        ElementsParts(made, rest[..i - |made|], k);
      }
    }
  }

  /** Each of these objects is blocked by the next. */
  ghost predicate Waits(g: Graph, mirrored: set<NId>, p: seq<NId>) {
    |p| > 0 && forall i :: 0 <= i < |p| - 1 ==> Next(g, mirrored, p[i], p[i + 1])
  }

  predicate Next(g: Graph, mirrored: set<NId>, n: NId, k: NId) { Blocking(g, mirrored, n) && k in g[n].refs }

  /** k has no counterpart and is reached from n through eager objects without one. */
  ghost predicate Needed(g: Graph, mirrored: set<NId>, n: NId, k: NId) {
    k !in mirrored && exists p :: Waits(g, mirrored, p) && p[0] == n && p[|p| - 1] == k
  }

  lemma NeededItself(g: Graph, mirrored: set<NId>, n: NId)
    requires n !in mirrored
    ensures Needed(g, mirrored, n, n)
  {
    assert Waits(g, mirrored, [n]);
  }

  lemma NeededVia(g: Graph, mirrored: set<NId>, n: NId, m: NId, k: NId)
    requires Next(g, mirrored, n, m) && Needed(g, mirrored, m, k)
    ensures Needed(g, mirrored, n, k)
  {
    var p :| Waits(g, mirrored, p) && p[0] == m && p[|p| - 1] == k;
    var q := [n] + p;
    forall i | 0 <= i < |q| - 1 ensures Next(g, mirrored, q[i], q[i + 1]) {
      if i > 0 { assert q[i] == p[i - 1] && q[i + 1] == p[i - 1 + 1]; }
    }
    assert Waits(g, mirrored, q);
  }

  lemma NeededEarlier(g: Graph, mirrored: set<NId>, more: set<NId>, n: NId, k: NId)
    requires mirrored <= more && Needed(g, more, n, k)
    ensures Needed(g, mirrored, n, k)
  {
    var p :| Waits(g, more, p) && p[0] == n && p[|p| - 1] == k;
    forall i | 0 <= i < |p| - 1 ensures Next(g, mirrored, p[i], p[i + 1]) { assert Next(g, more, p[i], p[i + 1]); }
    assert Waits(g, mirrored, p);
  }

  ghost predicate Good(g: Graph, mirrored: set<NId>, n: NId, made: seq<NId>) {
    && ItemsFirst(g, mirrored, made) && n in mirrored + Elements(made)
    && forall k :: k in made ==> k in g && Needed(g, mirrored, n, k)
  }

  ghost predicate NeededBy(g: Graph, mirrored: set<NId>, refs: seq<NId>, k: NId) {
    exists m :: m in refs && Needed(g, mirrored, m, k)
  }

  lemma {:induction false} CreatesGood(g: Graph, mirrored: set<NId>, n: NId, depth: nat)
    requires Closed(g) && n in g && Convert(g, mirrored, n, depth).Some?
    ensures Good(g, mirrored, n, Convert(g, mirrored, n, depth).value)
    decreases depth, 1, 0
  {
    hide Needed;
    hide ItemsFirst;
    NothingFirst(g, mirrored);
    if n !in mirrored {
      NeededItself(g, mirrored, n);
      var made := [];
      if Eager(g[n]) {
        CreatesGoodAll(g, mirrored, g[n].refs, depth - 1);
        made := ConvertAll(g, mirrored, g[n].refs, depth - 1).value;
        forall k | k in made ensures Needed(g, mirrored, n, k) {
          var m :| m in g[n].refs && Needed(g, mirrored, m, k);
          NeededVia(g, mirrored, n, m, k);
        }
      }
      ItemsFirstLast(g, mirrored, made, n);
      ElementsParts(made, [n], n);
      assert Convert(g, mirrored, n, depth).value == made + [n];
    }
  }

  lemma {:induction false} CreatesGoodAll(g: Graph, mirrored: set<NId>, refs: seq<NId>, depth: nat)
    requires Closed(g) && ConvertAll(g, mirrored, refs, depth).Some?
    ensures var made := ConvertAll(g, mirrored, refs, depth).value;
            && ItemsFirst(g, mirrored, made) && (forall k :: k in refs ==> k in mirrored + Elements(made))
            && forall k :: k in made ==> k in g && NeededBy(g, mirrored, refs, k)
    decreases depth, 2, |refs|
  {
    hide Needed;
    hide ItemsFirst;
    if refs == [] {
      NothingFirst(g, mirrored);
    } else {
      CreatesGood(g, mirrored, refs[0], depth);
      var made := Convert(g, mirrored, refs[0], depth).value;
      CreatesGoodAll(g, mirrored + Elements(made), refs[1..], depth);
      var rest := ConvertAll(g, mirrored + Elements(made), refs[1..], depth).value;
      forall k | k in rest ensures NeededBy(g, mirrored, refs, k) {
        var m :| m in refs[1..] && Needed(g, mirrored + Elements(made), m, k);
        NeededEarlier(g, mirrored, mirrored + Elements(made), m, k);
      }
      ItemsFirstBoth(g, mirrored, made, rest);
      ElementsParts(made, rest, 0);
      assert refs == [refs[0]] + refs[1..];
    }
  }

  lemma NothingFirst(g: Graph, mirrored: set<NId>)
    ensures ItemsFirst(g, mirrored, [])
  {
  }

  /** Whatever an object waits for is created before. */
  lemma {:induction false} NeededMade(g: Graph, mirrored: set<NId>, made: seq<NId>, p: seq<NId>)
    requires ItemsFirst(g, mirrored, made) && Waits(g, mirrored, p) && p[0] in mirrored + Elements(made)
    ensures p[|p| - 1] in mirrored + Elements(made)
    decreases |p|
  {
    if |p| > 1 {
      assert Next(g, mirrored, p[0], p[0 + 1]);
      var i :| 0 <= i < |made| && made[i] == p[0];
      assert p[1] in mirrored + Elements(made[..i]);
      forall k | 0 <= k < |p[1..]| - 1 ensures Next(g, mirrored, p[1..][k], p[1..][k + 1]) {
        assert Next(g, mirrored, p[k + 1], p[k + 1 + 1]);
      }
      NeededMade(g, mirrored, made, p[1..]);
    }
  }

  /** A conversion that ends creates exactly the counterparts that are needed: those of objects without one that are
      reached from n through eager objects without one; each after those its object refers to, if that is eager. */
  lemma ConvertsNeeded(g: Graph, mirrored: set<NId>, n: NId, depth: nat)
    requires Closed(g) && n in g && Convert(g, mirrored, n, depth).Some?
    ensures var made := Convert(g, mirrored, n, depth).value;
            && (forall k :: k in made <==> Needed(g, mirrored, n, k))
            && forall i, k :: 0 <= i < |made| && made[i] in g && Eager(g[made[i]]) && k in g[made[i]].refs ==>
                 k in mirrored || k in made[..i]
  {
    var made := Convert(g, mirrored, n, depth).value;
    CreatesGood(g, mirrored, n, depth);
    forall k | Needed(g, mirrored, n, k) ensures k in made {
      var p :| Waits(g, mirrored, p) && p[0] == n && p[|p| - 1] == k;
      NeededMade(g, mirrored, made, p);
    }
  }
}
