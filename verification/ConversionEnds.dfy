/** Which conversions to native end at all. The recursion is followed to a given depth, on the Java graph and the set of
    registered objects: late objects are registered after their items, all others before. It ends exactly if it comes
    to no cycle of late objects without handles, and then registers what the conversion does. */
module ConversionEnds {
  import opened Basics
  import opened JavaGraph
  import opened Conversion
  import opened ConversionGraph
  import opened ConversionReach
  import opened ConversionOnce

  /** The objects registered after r was converted; None if the recursion goes deeper. */
  ghost function Walk(g: Graph, registered: set<JId>, r: JRef, depth: nat): Option<set<JId>>
    decreases depth, 1, 0
  {
    if !Unmirrored(g, registered, r) then Some(registered)
    else if depth == 0 then None
    else if g.heap[r.j].kind.Late? then
      match WalkItems(g, registered, Kids(g.heap[r.j]), depth - 1)
      case None => None
      case Some(after) => Some(after + {r.j})
    else WalkItems(g, registered + {r.j}, Kids(g.heap[r.j]), depth - 1)
  }

  ghost function WalkItems(g: Graph, registered: set<JId>, refs: seq<JRef>, depth: nat): Option<set<JId>>
    decreases depth, 2, |refs|
  {
    if refs == [] then Some(registered)
    else match Walk(g, registered, refs[0], depth)
         case None => None
         case Some(after) => WalkItems(g, after, refs[1..], depth)
  }

  /** A cycle of late objects without handles is reached. */
  ghost predicate CycleAhead(g: Graph, registered: set<JId>, r: JRef) {
    exists k, m ::
      && Unmirrored(g, registered, r) && Reaches(Outside(g, registered), false, r.j, k)
      && Edge(Outside(g, registered), true, k, m) && Reaches(Outside(g, registered), true, m, k)
  }

  // ----- what a walk that ends has registered

  ghost predicate ItemsIn(g: Graph, x: JId, after: set<JId>)
    requires x in g.heap
  {
    forall r :: r in Kids(g.heap[x]) ==> Arrived(g, after, r)
  }

  /** Whatever is new is an object and has its items registered, too. */
  ghost predicate ClosedOver(g: Graph, before: set<JId>, after: set<JId>) {
    before <= after && forall x :: x in after && x !in before ==> x in g.heap && ItemsIn(g, x, after)
  }

  lemma ItemsInMore(g: Graph, x: JId, a: set<JId>, b: set<JId>)
    requires x in g.heap && ItemsIn(g, x, a) && a <= b
    ensures ItemsIn(g, x, b)
  {
  }

  lemma ClosedThen(g: Graph, a: set<JId>, b: set<JId>, c: set<JId>)
    requires ClosedOver(g, a, b) && ClosedOver(g, b, c)
    ensures ClosedOver(g, a, c)
  {
    hide ItemsIn;
    forall x | x in c && x !in a ensures x in g.heap && ItemsIn(g, x, c) {
      if x in b { ItemsInMore(g, x, b, c); }
    }
  }

  /** An object is registered with its items, whether before or after them. */
  lemma ClosedWith(g: Graph, a: set<JId>, b: set<JId>, j: JId)
    requires j in g.heap && ItemsIn(g, j, b) && (ClosedOver(g, a, b) || ClosedOver(g, a + {j}, b))
    ensures ClosedOver(g, a, b + {j})
  {
    hide ItemsIn;
    ItemsInMore(g, j, b, b + {j});
    forall x | x in b + {j} && x !in a ensures x in g.heap && ItemsIn(g, x, b + {j}) {
      if x != j { ItemsInMore(g, x, b, b + {j}); }
    }
  }

  /** Late objects without handles, each of which has one of them as an item: a cycle, for instance. */
  ghost predicate Trap(g: Graph, registered: set<JId>, trap: set<JId>) {
    forall j :: j in trap ==> j in g.heap && j !in registered && g.heap[j].kind.Late? && HasItemIn(g, j, trap)
  }

  ghost predicate HasItemIn(g: Graph, j: JId, trap: set<JId>)
    requires j in g.heap
  {
    exists k :: k in trap && JTo(k) in Kids(g.heap[j])
  }

  predicate Arrived(g: Graph, registered: set<JId>, r: JRef) {
    r.JTo? && r.j in g.heap && !g.heap[r.j].kind.Native? ==> r.j in registered
  }

  lemma TrapLater(g: Graph, a: set<JId>, b: set<JId>, trap: set<JId>)
    requires Trap(g, a, trap) && b !! trap
    ensures Trap(g, b, trap)
  {
  }

  /** Nothing in a trap is ever registered, and whatever else is comes with its items. */
  lemma {:induction false} WalkKeeps(g: Graph, registered: set<JId>, trap: set<JId>, r: JRef, depth: nat)
    requires Trap(g, registered, trap) && Walk(g, registered, r, depth).Some?
    ensures var after := Walk(g, registered, r, depth).value;
            after !! trap && ClosedOver(g, registered, after) && Arrived(g, after, r)
    decreases depth, 1, 0
  {
    hide Trap; hide ClosedOver;
    if Unmirrored(g, registered, r) {
      var j := r.j;
      if g.heap[j].kind.Late? {
        WalkItemsKeeps(g, registered, trap, Kids(g.heap[j]), depth - 1);
        var after := WalkItems(g, registered, Kids(g.heap[j]), depth - 1).value;
        NotTrapped(g, registered, trap, j, after);
        ClosedWith(g, registered, after, j);
      } else {
        var after := WalkItems(g, registered + {j}, Kids(g.heap[j]), depth - 1).value;
        LateTrap(g, registered, trap, j);
        TrapLater(g, registered, registered + {j}, trap);
        WalkItemsKeeps(g, registered + {j}, trap, Kids(g.heap[j]), depth - 1);
        ClosedWith(g, registered, after, j);
        ClosedGrows(g, registered + {j}, after);
        assert after + {j} == after;
      }
    } else {
      NothingNew(g, registered, trap);
    }
  }

  lemma NothingNew(g: Graph, registered: set<JId>, trap: set<JId>)
    requires Trap(g, registered, trap)
    ensures registered !! trap && ClosedOver(g, registered, registered)
  {
  }

  lemma ClosedGrows(g: Graph, a: set<JId>, b: set<JId>)
    requires ClosedOver(g, a, b)
    ensures a <= b && b - a <= g.heap.Keys
  {
  }

  lemma LateTrap(g: Graph, registered: set<JId>, trap: set<JId>, j: JId)
    requires Trap(g, registered, trap) && j in g.heap && !g.heap[j].kind.Late?
    ensures j !in trap && registered + {j} !! trap
  {
  }

  /** An object whose items are registered is in no trap. */
  lemma NotTrapped(g: Graph, registered: set<JId>, trap: set<JId>, j: JId, after: set<JId>)
    requires Trap(g, registered, trap) && j in g.heap && ItemsIn(g, j, after) && after !! trap
    ensures j !in trap
  {
    forall k | k in trap ensures JTo(k) !in Kids(g.heap[j]) { }
  }

  lemma {:induction false} WalkItemsKeeps(g: Graph, registered: set<JId>, trap: set<JId>, refs: seq<JRef>, depth: nat)
    requires Trap(g, registered, trap) && WalkItems(g, registered, refs, depth).Some?
    ensures var after := WalkItems(g, registered, refs, depth).value;
            && after !! trap && ClosedOver(g, registered, after)
            && forall r :: r in refs ==> Arrived(g, after, r)
    decreases depth, 2, |refs|
  {
    hide Trap; hide ClosedOver;
    if refs == [] {
      NothingNew(g, registered, trap);
    } else {
      WalkKeeps(g, registered, trap, refs[0], depth);
      var first := Walk(g, registered, refs[0], depth).value;
      TrapLater(g, registered, first, trap);
      WalkItemsKeeps(g, first, trap, refs[1..], depth);
      ClosedThen(g, registered, first, WalkItems(g, first, refs[1..], depth).value);
      ClosedGrows(g, first, WalkItems(g, first, refs[1..], depth).value);
      assert refs == [refs[0]] + refs[1..];
    }
  }

  lemma {:induction false} PathCovered(g: Graph, before: set<JId>, after: set<JId>, p: seq<JId>)
    requires ClosedOver(g, before, after) && IsPath(Outside(g, before), false, p) && p[0] in after
    requires p[|p| - 1] in g.heap && !g.heap[p[|p| - 1]].kind.Native?
    ensures p[|p| - 1] in after
    decreases |p|
  {
    if |p| > 1 {
      var h := Outside(g, before);
      FirstEdge(h, false, p);
      if |p| > 2 { assert Edge(h, false, p[1], p[1 + 1]); }
      assert IsPath(h, false, p[1..]) by {
        forall i | 0 <= i < |p[1..]| - 1 ensures Edge(h, false, p[1..][i], p[1..][i + 1]) {
          assert Edge(h, false, p[i + 1], p[i + 1 + 1]);
        }
      }
      assert p[0] !in before && ItemsIn(g, p[0], after) && Arrived(g, after, JTo(p[1]));
      PathCovered(g, before, after, p[1..]);
    }
  }

  // ----- a cycle ahead

  /** The objects of a cycle of late objects are a trap. */
  lemma CycleIsTrap(g: Graph, registered: set<JId>, k: JId, m: JId) returns (trap: set<JId>)
    requires Edge(Outside(g, registered), true, k, m) && Reaches(Outside(g, registered), true, m, k)
    ensures Trap(g, registered, trap) && k in trap
  {
    var h := Outside(g, registered);
    var p :| IsPath(h, true, p) && p[0] == m && p[|p| - 1] == k;
    trap := set x | x in p;
    assert m in trap && k in trap;
    forall j | j in trap
      ensures j in g.heap && j !in registered && g.heap[j].kind.Late? && HasItemIn(g, j, trap)
    {
      var i :| 0 <= i < |p| && p[i] == j;
      if i + 1 < |p| { assert Edge(h, true, p[i], p[i + 1]) && p[i + 1] in trap; }
    }
  }

  lemma LateIsObject(g: Graph, registered: set<JId>, trap: set<JId>, k: JId)
    requires Trap(g, registered, trap) && k in trap
    ensures k in g.heap && !g.heap[k].kind.Native?
  {
  }

  lemma CycleNeverEnds(g: Graph, registered: set<JId>, r: JRef, depth: nat)
    requires CycleAhead(g, registered, r)
    ensures Walk(g, registered, r, depth) == None
  {
    var k, m :| Unmirrored(g, registered, r) && Reaches(Outside(g, registered), false, r.j, k)
                && Edge(Outside(g, registered), true, k, m) && Reaches(Outside(g, registered), true, m, k);
    var trap := CycleIsTrap(g, registered, k, m);
    hide Trap; hide Walk; hide ClosedOver;
    if Walk(g, registered, r, depth).Some? {
      WalkKeeps(g, registered, trap, r, depth);
      LateIsObject(g, registered, trap, k);
      var p :| IsPath(Outside(g, registered), false, p) && p[0] == r.j && p[|p| - 1] == k;
      PathCovered(g, registered, Walk(g, registered, r, depth).value, p);
    }
  }

  // ----- no cycle ahead

  /** Rank among late objects without handles, 0 for all others. */
  ghost function RankOutside(g: Graph, registered: set<JId>, r: JRef): nat {
    if Unmirrored(g, registered, r) && g.heap[r.j].kind.Late? then |ReachFrom(Outside(g, registered), true, r.j)| else 0
  }

  lemma NoCycleLater(g: Graph, a: set<JId>, b: set<JId>, r: JRef)
    requires a <= b && !CycleAhead(g, a, r)
    ensures !CycleAhead(g, b, r)
  {
    if CycleAhead(g, b, r) {
      var k, m :| Unmirrored(g, b, r) && Reaches(Outside(g, b), false, r.j, k)
                  && Edge(Outside(g, b), true, k, m) && Reaches(Outside(g, b), true, m, k);
      ReachesOutside(g, false, a, b, r.j, k);
      ReachesOutside(g, true, a, b, m, k);
      assert Edge(Outside(g, a), true, k, m);
    }
  }

  lemma NoCycleItem(g: Graph, registered: set<JId>, j: JId, i: nat)
    requires Closed(g) && Unmirrored(g, registered, JTo(j)) && i < |Kids(g.heap[j])| && !CycleAhead(g, registered, JTo(j))
    ensures !CycleAhead(g, registered, Kids(g.heap[j])[i])
    ensures g.heap[j].kind.Late? ==>
              RankOutside(g, registered, Kids(g.heap[j])[i]) < RankOutside(g, registered, JTo(j))
  {
    var h := Outside(g, registered);
    var r := Kids(g.heap[j])[i];
    if CycleAhead(g, registered, r) {
      var k, m :| Unmirrored(g, registered, r) && Reaches(h, false, r.j, k) && Edge(h, true, k, m) && Reaches(h, true, m, k);
      ReachesAlong(h, false, j, r.j, k);
    }
    if g.heap[j].kind.Late? {
      ReachesSelf(h, true, j);
      assert j in ReachFrom(h, true, j);
      if Unmirrored(g, registered, r) && g.heap[r.j].kind.Late? {
        assert Edge(h, true, j, r.j);
        ReachesSelf(h, false, j);
        ReachShrinks(h, true, j, r.j);
      }
    }
  }

  /** More depth does no harm. */
  ghost predicate EndsBy(g: Graph, registered: set<JId>, r: JRef, depth: nat) {
    forall d: nat :: depth <= d ==> Walk(g, registered, r, d).Some? && Walk(g, registered, r, d) == Walk(g, registered, r, depth)
  }

  ghost predicate ItemsEndBy(g: Graph, registered: set<JId>, refs: seq<JRef>, depth: nat) {
    forall d: nat :: depth <= d ==>
      WalkItems(g, registered, refs, d).Some? && WalkItems(g, registered, refs, d) == WalkItems(g, registered, refs, depth)
  }

  lemma WalkGrows(g: Graph, registered: set<JId>, r: JRef, depth: nat)
    requires Walk(g, registered, r, depth).Some?
    ensures var after := Walk(g, registered, r, depth).value;
            registered <= after && (after != registered ==> Missing(g, after) < Missing(g, registered))
  {
    WalkKeeps(g, registered, {}, r, depth);
    var after := Walk(g, registered, r, depth).value;
    ClosedGrows(g, registered, after);
    MissingFalls(g, registered, after);
    if after != registered {
      var x :| x in after && x !in registered;
      assert x in g.heap;
    }
  }

  lemma {:induction false} NoCycleEnds(g: Graph, registered: set<JId>, r: JRef) returns (depth: nat)
    requires Closed(g) && !CycleAhead(g, registered, r)
    ensures EndsBy(g, registered, r, depth)
    decreases Missing(g, registered), RankOutside(g, registered, r), 1, 0
  {
    depth := 0;
    if Unmirrored(g, registered, r) {
      var j := r.j;
      var kids := Kids(g.heap[j]);
      var after := if g.heap[j].kind.Late? then registered else registered + {j};
      MissingFalls(g, registered, after);
      var d := ItemsEnd(g, registered, after, j, 0);
      assert kids[0..] == kids;
      depth := d + 1;
      forall e: nat | depth <= e
        ensures Walk(g, registered, r, e).Some? && Walk(g, registered, r, e) == Walk(g, registered, r, depth)
      {
        assert WalkItems(g, after, kids, e - 1) == WalkItems(g, after, kids, d);
      }
    }
  }

  lemma {:induction false} ItemsEnd(g: Graph, before: set<JId>, registered: set<JId>, j: JId, i: nat) returns (depth: nat)
    requires Closed(g) && Unmirrored(g, before, JTo(j)) && !CycleAhead(g, before, JTo(j)) && i <= |Kids(g.heap[j])|
    requires before <= registered && (!g.heap[j].kind.Late? ==> j in registered)
    ensures ItemsEndBy(g, registered, Kids(g.heap[j])[i..], depth)
    decreases Missing(g, registered),
              if registered == before then RankOutside(g, before, JTo(j)) else |g.heap| + 1, 0, |Kids(g.heap[j])| - i
  {
    var kids := Kids(g.heap[j]);
    depth := 0;
    if i < |kids| {
      var r := kids[i];
      NoCycleItem(g, before, j, i);
      NoCycleLater(g, before, registered, r);
      RankBounded(g, registered, r);
      var d := NoCycleEnds(g, registered, r);
      var after := Walk(g, registered, r, d).value;
      WalkGrows(g, registered, r, d);
      MissingFalls(g, registered, after);
      var e := ItemsEnd(g, before, after, j, i + 1);
      depth := if d > e then d else e;
      assert kids[i..][1..] == kids[i + 1..];
      forall f: nat | depth <= f
        ensures WalkItems(g, registered, kids[i..], f).Some?
        ensures WalkItems(g, registered, kids[i..], f) == WalkItems(g, registered, kids[i..], depth)
      {
        assert Walk(g, registered, r, f) == Walk(g, registered, r, d) == Walk(g, registered, r, depth);
        assert WalkItems(g, after, kids[i + 1..], f) == WalkItems(g, after, kids[i + 1..], e)
               == WalkItems(g, after, kids[i + 1..], depth);
      }
    }
  }

  lemma RankBounded(g: Graph, registered: set<JId>, r: JRef)
    ensures RankOutside(g, registered, r) <= |g.heap|
  {
    if r.JTo? {
      SubsetSize(ReachFrom(Outside(g, registered), true, r.j), g.heap.Keys);
      assert |g.heap.Keys| == |g.heap|;
    }
  }

  /** The conversion ends exactly if no cycle of late objects without handles is reached. */
  lemma EndsIff(g: Graph, registered: set<JId>, r: JRef)
    requires Closed(g)
    ensures (exists depth: nat :: Walk(g, registered, r, depth).Some?) <==> !CycleAhead(g, registered, r)
  {
    if CycleAhead(g, registered, r) {
      forall depth: nat ensures Walk(g, registered, r, depth) == None { CycleNeverEnds(g, registered, r, depth); }
    } else {
      var depth := NoCycleEnds(g, registered, r);
      assert Walk(g, registered, r, depth).Some?;
    }
  }

  // ----- the walk registers what the conversion does

  lemma {:induction false} WalkOnlyReached(g: Graph, registered: set<JId>, r: JRef, depth: nat)
    requires Closed(g) && Walk(g, registered, r, depth).Some?
    ensures Walk(g, registered, r, depth).value <= Registered(g, registered, r)
    decreases depth, 1, 0
  {
    if Unmirrored(g, registered, r) {
      var j := r.j;
      var kids := Kids(g.heap[j]);
      var start := if g.heap[j].kind.Late? then registered else registered + {j};
      assert kids[0..] == kids;
      WalkItemsOnlyReached(g, registered, start, j, 0, depth - 1);
      ReachesSelf(Outside(g, registered), false, j);
      var after := Walk(g, registered, r, depth).value;
      forall x | x in after && x !in registered && x != j ensures x in Reached(g, registered, j) {
        assert ViaItem(Outside(g, registered), j, x);
        ViaItemReaches(Outside(g, registered), j, x);
      }
    }
  }

  lemma {:induction false} WalkItemsOnlyReached(g: Graph, before: set<JId>, registered: set<JId>, j: JId, i: nat, depth: nat)
    requires Closed(g) && before <= registered && Unmirrored(g, before, JTo(j)) && i <= |Kids(g.heap[j])|
    requires WalkItems(g, registered, Kids(g.heap[j])[i..], depth).Some?
    ensures forall x :: x in WalkItems(g, registered, Kids(g.heap[j])[i..], depth).value && x !in registered ==>
              x in g.heap && !g.heap[x].kind.Native? && ViaItem(Outside(g, before), j, x)
    decreases depth, 2, |Kids(g.heap[j])| - i
  {
    var kids := Kids(g.heap[j]);
    if i < |kids| {
      var r := kids[i];
      assert kids[i..][1..] == kids[i + 1..];
      WalkOnlyReached(g, registered, r, depth);
      WalkGrows(g, registered, r, depth);
      var first := Walk(g, registered, r, depth).value;
      WalkItemsOnlyReached(g, before, first, j, i + 1, depth);
      forall x | x in first && x !in registered
        ensures x in g.heap && !g.heap[x].kind.Native? && ViaItem(Outside(g, before), j, x)
      {
        ReachesOutside(g, false, before, registered, r.j, x);
        assert Edge(Outside(g, before), false, j, r.j);
      }
    }
  }

  lemma WalkExactly(g: Graph, registered: set<JId>, r: JRef, depth: nat)
    requires Closed(g) && Walk(g, registered, r, depth).Some?
    ensures Walk(g, registered, r, depth).value == Registered(g, registered, r)
  {
    WalkOnlyReached(g, registered, r, depth);
    WalkKeeps(g, registered, {}, r, depth);
    if Unmirrored(g, registered, r) {
      var after := Walk(g, registered, r, depth).value;
      hide Walk;
      forall k | k in Reached(g, registered, r.j) ensures k in after {
        var p :| IsPath(Outside(g, registered), false, p) && p[0] == r.j && p[|p| - 1] == k;
        PathCovered(g, registered, after, p);
      }
    }
  }

  /** Without cycles of late objects in the graph the walk ends, and has registered what the conversion has. */
  lemma WalkIsConvert(g: Graph, st: St, r: JRef)
    requires Ready(g, st) && InHeap(g, r) && Valid(g, st) && Sound(g, st)
    ensures exists depth: nat :: Walk(g, Handles(g, st), r, depth) == Some(Handles(g, Convert(g, st, r).0))
  {
    var registered := Handles(g, st);
    if CycleAhead(g, registered, r) {
      var k, m :| Unmirrored(g, registered, r) && Reaches(Outside(g, registered), false, r.j, k)
                  && Edge(Outside(g, registered), true, k, m) && Reaches(Outside(g, registered), true, m, k);
      ReachesOutside(g, true, g.known, registered, m, k);
      assert Outside(g, g.known) == g;
      assert Edge(g, true, k, m);
    }
    EndsIff(g, registered, r);
    var depth: nat :| Walk(g, registered, r, depth).Some?;
    WalkExactly(g, registered, r, depth);
    HandlesExactly(g, st, r);
  }
}
