/** Java objects and the references a conversion to native follows. Converting an object follows the references
    of tuples, lists, cells and functions after the object's native handle is registered, and those of methods,
    instances and the like before; truncated objects and leaves are converted without following any. */
module JavaGraph {
  import opened Basics

  datatype Kind =
    | Native(n: NId)           // None, True, a CPeer...: stands for a native object that exists anyway
    | Leaf                     // number, string: created by pyInit, registered by INIT_JY
    | Cached(v: nat)           // small int, one-letter string: pyInit returns the one native object of that value
    | Stub                     // truncated: registered, nothing converted
    | Tuple | List             // pyInit registers first and then converts the items
    | Early                    // cell, function: registered by INIT_OBJECT_TME, then jy2py
    | Late(what: LateKind)     // items first, then created and registered

  datatype LateKind = Method | Class | Instance | ClassMethod | StaticMethod | DictProxy | Property

  /** The constructor takes references of its own to the items; that of properties is given them. */
  predicate Borrows(what: LateKind) { what != Property }

  datatype JRef = JNull | JTo(j: JId)

  datatype JObj = JObj(kind: Kind, refs: seq<JRef>)

  /** `weak`: objects with a Jython weak-reference backend. `known`: objects mirrored before the conversion. */
  datatype Graph = Graph(heap: map<JId, JObj>, weak: set<JId>, known: set<JId>)

  /** The references that converting an object follows. */
  function Kids(o: JObj): seq<JRef> {
    if o.kind.Native? || o.kind.Leaf? || o.kind.Cached? || o.kind.Stub? then [] else o.refs
  }

  /** No dangling Java references. */
  ghost predicate Closed(g: Graph) {
    forall j, i :: j in g.heap && 0 <= i < |g.heap[j].refs| && g.heap[j].refs[i].JTo? ==> g.heap[j].refs[i].j in g.heap
  }

  predicate IsLate(g: Graph, j: JId) { j in g.heap && j !in g.known && g.heap[j].kind.Late? }

  /** Converting j asks for k; with `late`, only between objects that are registered last. */
  ghost predicate Edge(g: Graph, late: bool, j: JId, k: JId) {
    && j in g.heap && j !in g.known && k in g.heap && JTo(k) in Kids(g.heap[j])
    && (late ==> IsLate(g, j) && IsLate(g, k))
  }

  ghost predicate IsPath(g: Graph, late: bool, p: seq<JId>) {
    |p| > 0 && forall i :: 0 <= i < |p| - 1 ==> Edge(g, late, p[i], p[i + 1])
  }

  ghost predicate Reaches(g: Graph, late: bool, j: JId, k: JId) {
    exists p :: IsPath(g, late, p) && p[0] == j && p[|p| - 1] == k
  }

  ghost function ReachFrom(g: Graph, late: bool, j: JId): set<JId> {
    set k | k in g.heap && Reaches(g, late, j, k)
  }

  /** No cycle among late objects: every cycle passes through an object that is registered first. */
  ghost predicate NoLateCycle(g: Graph) {
    forall j, k :: Edge(g, true, j, k) ==> !Reaches(g, true, k, j)
  }

  /** No late object lies on a cycle at all. */
  ghost predicate NoLateOnCycle(g: Graph) {
    forall j, k :: IsLate(g, j) && Edge(g, false, j, k) ==> !Reaches(g, false, k, j)
  }

  lemma ReachesSelf(g: Graph, late: bool, j: JId)
    ensures Reaches(g, late, j, j)
  {
    assert IsPath(g, late, [j]);
  }

  lemma ReachesAlong(g: Graph, late: bool, j: JId, k: JId, m: JId)
    requires Edge(g, late, j, k) && Reaches(g, late, k, m)
    ensures Reaches(g, late, j, m)
  {
    var p :| IsPath(g, late, p) && p[0] == k && p[|p| - 1] == m;
    var q := [j] + p;
    forall i | 0 <= i < |q| - 1 ensures Edge(g, late, q[i], q[i + 1]) {
      if i > 0 { assert q[i] == p[i - 1] && q[i + 1] == p[i]; }
    }
    assert IsPath(g, late, q);
  }

  lemma SubsetSize(a: set<JId>, b: set<JId>)
    requires a <= b
    ensures |a| <= |b| && (a != b ==> |a| < |b|)
  {
    assert |b| == |a| + |b - a| by { assert b == a + (b - a); }
    if a != b {
      assert b - a != {};
    }
  }

  /** Following an edge never enlarges what can be reached, and shrinks it unless the edge closes a cycle. */
  lemma ReachShrinks(g: Graph, late: bool, j: JId, k: JId)
    requires Edge(g, late, j, k)
    ensures |ReachFrom(g, late, k)| <= |ReachFrom(g, late, j)|
    ensures !Reaches(g, late, k, j) ==> |ReachFrom(g, late, k)| < |ReachFrom(g, late, j)|
  {
    forall m | m in ReachFrom(g, late, k) ensures m in ReachFrom(g, late, j) { ReachesAlong(g, late, j, k, m); }
    ReachesSelf(g, late, j);
    assert j in ReachFrom(g, late, j);
    if !Reaches(g, late, k, j) { assert j !in ReachFrom(g, late, k); }
    SubsetSize(ReachFrom(g, late, k), ReachFrom(g, late, j));
  }

  /** Rank among late objects, 0 for all others: falls along every reference from a late object. */
  ghost function LateRank(g: Graph, j: JId): (r: nat)
    ensures r <= |g.heap|
  {
    SubsetSize(ReachFrom(g, true, j), g.heap.Keys);
    assert |g.heap.Keys| == |g.heap|;
    if IsLate(g, j) then |ReachFrom(g, true, j)| else 0
  }

  lemma LateRankFalls(g: Graph, j: JId, k: JId)
    requires NoLateCycle(g) && IsLate(g, j) && k in g.heap && JTo(k) in Kids(g.heap[j])
    ensures LateRank(g, k) < LateRank(g, j)
  {
    ReachesSelf(g, true, j);
    assert j in ReachFrom(g, true, j);
    if IsLate(g, k) {
      assert Edge(g, true, j, k);
      ReachShrinks(g, true, j, k);
    }
  }

  lemma ReachesWeaker(g: Graph, j: JId, k: JId)
    requires Reaches(g, true, j, k)
    ensures Reaches(g, false, j, k)
  {
    var p :| IsPath(g, true, p) && p[0] == j && p[|p| - 1] == k;
    assert IsPath(g, false, p);
  }

  // ----- objects registered in the course of a conversion

  /** The graph as a conversion sees it when `registered` have handles. */
  function Outside(g: Graph, registered: set<JId>): Graph { g.(known := registered) }

  /** Paths past fewer registered objects are more. */
  lemma PathOutside(g: Graph, late: bool, a: set<JId>, b: set<JId>, p: seq<JId>)
    requires a <= b && IsPath(Outside(g, b), late, p)
    ensures IsPath(Outside(g, a), late, p)
  {
    forall i | 0 <= i < |p| - 1 ensures Edge(Outside(g, a), late, p[i], p[i + 1]) {
      assert Edge(Outside(g, b), late, p[i], p[i + 1]);
    }
  }

  lemma ReachesOutside(g: Graph, late: bool, a: set<JId>, b: set<JId>, j: JId, k: JId)
    requires a <= b && Reaches(Outside(g, b), late, j, k)
    ensures Reaches(Outside(g, a), late, j, k)
  {
    var p :| IsPath(Outside(g, b), late, p) && p[0] == j && p[|p| - 1] == k;
    PathOutside(g, late, a, b, p);
  }

  /** One of j's own items leads to k. */
  ghost predicate ViaItem(g: Graph, j: JId, k: JId) {
    exists m :: Edge(g, false, j, m) && Reaches(g, false, m, k)
  }

  lemma ViaItemReaches(g: Graph, j: JId, k: JId)
    requires ViaItem(g, j, k)
    ensures Reaches(g, false, j, k)
  {
    var m :| Edge(g, false, j, m) && Reaches(g, false, m, k);
    ReachesAlong(g, false, j, m, k);
  }

  lemma ViaItemOutside(g: Graph, a: set<JId>, b: set<JId>, j: JId, k: JId)
    requires a <= b && ViaItem(Outside(g, b), j, k)
    ensures ViaItem(Outside(g, a), j, k)
  {
    var m :| Edge(Outside(g, b), false, j, m) && Reaches(Outside(g, b), false, m, k);
    ReachesOutside(g, false, a, b, m, k);
    assert Edge(Outside(g, a), false, j, m);
  }

  /** Where a path that does not stay ends is reached through its first object's items, which lie in the graph. */
  lemma PathEndsInHeap(g: Graph, j: JId, k: JId)
    requires Reaches(g, false, j, k) && j in g.heap
    ensures k in g.heap && (j != k ==> Kids(g.heap[j]) != [])
  {
    var p :| IsPath(g, false, p) && p[0] == j && p[|p| - 1] == k;
    if |p| > 1 { assert Edge(g, false, p[0], p[1]) && Edge(g, false, p[|p| - 2], p[|p| - 2 + 1]); }
  }

  lemma FirstEdge(g: Graph, late: bool, p: seq<JId>)
    requires IsPath(g, late, p) && |p| > 1
    ensures Edge(g, late, p[0], p[1])
  {
    assert Edge(g, late, p[0], p[0 + 1]);
  }

  lemma RegisteredEndsPaths(g: Graph, late: bool, j: JId, k: JId)
    requires Reaches(g, late, j, k) && j in g.known
    ensures j == k
  {
    var p :| IsPath(g, late, p) && p[0] == j && p[|p| - 1] == k;
    if |p| > 1 { FirstEdge(g, late, p); }
  }

  /** The weaker condition follows from the stronger. */
  lemma NoLateOnCycleStronger(g: Graph)
    requires NoLateOnCycle(g)
    ensures NoLateCycle(g)
  {
    forall j, k | Edge(g, true, j, k) ensures !Reaches(g, true, k, j) {
      assert Edge(g, false, j, k);
      if Reaches(g, true, k, j) { ReachesWeaker(g, k, j); }
    }
  }
}
