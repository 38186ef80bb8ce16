/** What runs of tracking and untracking leave in the ring: each object that is tracked, once, in the order in which
    the objects were last tracked. */
module GcRuns {
  import opened Basics

  datatype Op<T> = TrackOp(g: T) | UntrackOp(g: T)

  datatype Run<T> = Start | Then(before: Run<T>, op: Op<T>)

  /** Position of x in s, or the length. */
  ghost function Find<T>(s: seq<T>, x: T): (k: nat)
    ensures k <= |s| && (k < |s| <==> x in s) && (k < |s| ==> s[k] == x)
  {
    if s == [] || s[0] == x then 0 else 1 + Find(s[1..], x)
  }

  /** The effect of the methods of GcRing.Generation on the tracked objects; what ends the program changes nothing. */
  ghost function Apply<T>(s: seq<T>, op: Op<T>): seq<T> {
    match op
    case TrackOp(g) => if g in s then s else s + [g]
    case UntrackOp(g) => if g in s then Cut(s, Find(s, g)) else s
  }

  ghost function Tracked<T>(r: Run<T>): seq<T> {
    match r
    case Start => []
    case Then(before, op) => Apply(Tracked(before), op)
  }

  /** Objects are tracked only while they are not, and untracked only while they are. */
  ghost predicate Proper<T>(r: Run<T>) {
    match r
    case Start => true
    case Then(before, op) => Proper(before) && (op.TrackOp? <==> op.g !in Tracked(before))
  }

  function Length<T>(r: Run<T>): nat {
    match r
    case Start => 0
    case Then(before, _) => Length(before) + 1
  }

  /** The last operation on x tracked it. */
  predicate LastTracked<T(==)>(r: Run<T>, x: T) {
    match r
    case Start => false
    case Then(before, op) => if op.g == x then op.TrackOp? else LastTracked(before, x)
  }

  /** When x was last tracked. */
  function TrackTime<T(==)>(r: Run<T>, x: T): (k: nat)
    ensures k <= Length(r)
  {
    match r
    case Start => 0
    case Then(before, op) => if op == TrackOp(x) then Length(r) else TrackTime(before, x)
  }

  lemma {:induction false} RingIsTracked<T>(r: Run<T>)
    requires Proper(r)
    ensures NoDuplicates(Tracked(r)) && forall x :: x in Tracked(r) <==> LastTracked(r, x)
  {
    if r.Then? {
      RingIsTracked(r.before);
      var s := Tracked(r.before);
      if r.op.UntrackOp? {
        var k := Find(s, r.op.g);
        CutDistinct(s, k);
        forall x ensures x in Cut(s, k) <==> x in s && x != r.op.g { CutHas(s, k, x); }
      }
    }
  }

  lemma CutHas<T>(s: seq<T>, k: nat, x: T)
    requires k < |s| && NoDuplicates(s)
    ensures x in Cut(s, k) <==> x in s && x != s[k]
  {
    CutAt(s, k);
    if x in s && x != s[k] {
      var i := Find(s, x);
      assert Cut(s, k)[if i < k then i else i - 1] == x;
    }
  }

  lemma {:induction false} RingInOrder<T>(r: Run<T>)
    requires Proper(r)
    ensures forall i, j :: 0 <= i < j < |Tracked(r)| ==> TrackTime(r, Tracked(r)[i]) < TrackTime(r, Tracked(r)[j])
  {
    if r.Then? {
      RingInOrder(r.before);
      RingIsTracked(r.before);
      var s := Tracked(r.before);
      if r.op.UntrackOp? { CutAt(s, Find(s, r.op.g)); }
    }
  }

  /** What the two methods do to the ring is what Apply does to the tracked objects behind the head. */
  lemma RingApplies<T>(ring: seq<T>, k: nat, g: T)
    requires NoDuplicates(ring) && 0 < k <= |ring| && (if k < |ring| then g == ring[k] else g !in ring)
    ensures k < |ring| ==> Cut(ring, k)[1..] == Apply(ring[1..], UntrackOp(g))
    ensures k == |ring| ==> (ring + [g])[1..] == Apply(ring[1..], TrackOp(g))
  {
    if k < |ring| {
      assert ring[1..][k - 1] == g;
      OnlyAt(ring, k);
      assert Find(ring[1..], g) == k - 1;
    }
  }
}
