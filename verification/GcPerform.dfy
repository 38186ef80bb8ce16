/** Runs of the methods of GcRing.Generation, which decide by the headers of the objects alone: they leave in the ring
    what the theorems of GcRuns are about. */
module GcPerform {
  import opened Basics
  import opened GcRing
  import opened GcRuns

  /** The objects that may be tracked: each is in the ring exactly if its own header says so. */
  ghost predicate Agrees(gen: Generation, objects: set<GcHead>)
    reads gen, gen.ring, objects
  {
    && gen.Valid() && gen.head !in objects
    && (forall i :: 0 < i < |gen.ring| ==> gen.ring[i] in objects)
    && (forall x :: x in objects ==> (x in gen.Tracked() <==> x.refs != UNTRACKED))
  }

  predicate Within<T>(r: Run<T>, objects: set<T>) { r.Then? ==> r.op.g in objects && Within(r.before, objects) }

  /** Objects outside the ring are not tracked, and those inside are by validity. */
  ghost predicate OthersUntracked(gen: Generation, objects: set<GcHead>)
    reads gen, gen.ring, objects
  {
    && gen.Valid() && gen.head !in objects
    && (forall i :: 0 < i < |gen.ring| ==> gen.ring[i] in objects)
    && (forall x :: x in objects && x !in gen.ring ==> x.refs == UNTRACKED)
  }

  lemma AgreesIff(gen: Generation, objects: set<GcHead>)
    ensures Agrees(gen, objects) <==> OthersUntracked(gen, objects)
  {
    if gen.Valid() && gen.head !in objects {
      hide Linked;
      hide NoDuplicates;
      assert gen.ring == [gen.head] + gen.Tracked();
      forall x | x in objects ensures x in gen.ring <==> x in gen.Tracked() { }
      forall x | x in gen.Tracked() ensures x.refs != UNTRACKED {
        var i :| 0 <= i < |gen.Tracked()| && gen.Tracked()[i] == x;
        assert gen.ring[i + 1] == x;
      }
    }
  }

  ghost function Members<T>(s: seq<T>): set<T> { set x | x in s }

  ghost predicate AllUntracked(s: set<GcHead>)
    reads s
  {
    forall x :: x in s ==> x.refs == UNTRACKED
  }

  lemma Parts(gen: Generation, objects: set<GcHead>)
    requires OthersUntracked(gen, objects)
    ensures gen.Valid() && NoDuplicates(gen.ring) && |gen.ring| > 0 && gen.ring[0] == gen.head && gen.head !in objects
    ensures Members(gen.ring) <= {gen.head} + objects && AllUntracked(objects - Members(gen.ring))
    ensures forall x :: x in objects ==> (x in gen.ring <==> x.refs != UNTRACKED)
  {
    AgreesIff(gen, objects);
    assert gen.ring == [gen.head] + gen.Tracked();
  }

  lemma FromParts(gen: Generation, objects: set<GcHead>)
    requires gen.Valid() && gen.head !in objects
    requires Members(gen.ring) <= {gen.head} + objects && AllUntracked(objects - Members(gen.ring))
    ensures OthersUntracked(gen, objects)
  {
    forall i | 0 < i < |gen.ring| ensures gen.ring[i] in objects { assert gen.ring[i] in Members(gen.ring); }
  }

  /** _PyObject_GC_TRACK, where it is not fatal. */
  method PerformTrack(gen: Generation, g: GcHead, ghost objects: set<GcHead>)
    requires OthersUntracked(gen, objects) && g in objects
    modifies gen`ring, gen.head, objects
    ensures OthersUntracked(gen, objects) && |old(gen.ring)| > 0 && |gen.ring| > 0
    ensures gen.ring[1..] == Apply(old(gen.ring)[1..], TrackOp(g))
  {
    Parts(gen, objects);
    TrackedTwice(gen.ring, g);
    hide *;
    if g.refs == UNTRACKED {
      TrackUntracked(gen, g, objects);
      FromParts(gen, objects);
    }
  }

  method TrackUntracked(gen: Generation, g: GcHead, ghost objects: set<GcHead>)
    requires gen.Valid() && NoDuplicates(gen.ring) && |gen.ring| > 0 && gen.ring[0] == gen.head && g != gen.head
    requires g in objects && g.refs == UNTRACKED && Members(gen.ring) <= {gen.head} + objects
    requires AllUntracked(objects - Members(gen.ring))
    modifies gen`ring, gen.head, objects
    ensures gen.Valid() && |old(gen.ring)| > 0 && |gen.ring| > 0
    ensures gen.ring[1..] == Apply(old(gen.ring)[1..], TrackOp(g))
    ensures Members(gen.ring) <= {gen.head} + objects && AllUntracked(objects - Members(gen.ring))
  {
    Footprint(gen, objects);
    ToTrack(gen.ring, g, objects);
    hide *;
    var ok := gen.Track(g);
  }

  /** What the method and the ring look like to objects that may be tracked. */
  lemma Footprint(gen: Generation, objects: set<GcHead>)
    requires Members(gen.ring) <= {gen.head} + objects
    ensures forall x :: x in gen.ring ==> x == gen.head || x in objects
    ensures forall x :: x in objects - Members(gen.ring) ==> x !in gen.ring
  {
    forall x | x in gen.ring ensures x == gen.head || x in objects { assert x in Members(gen.ring); }
  }

  lemma ToTrack(ring: seq<GcHead>, g: GcHead, objects: set<GcHead>)
    requires |ring| > 0 && NoDuplicates(ring) && AllUntracked(objects - Members(ring)) && g.refs == UNTRACKED
    ensures g !in ring ==> (ring + [g])[1..] == Apply(ring[1..], TrackOp(g))
    ensures Members(ring + [g]) == Members(ring) + {g}
    ensures objects - Members(ring + [g]) == objects - Members(ring) - {g}
    ensures AllUntracked(objects - Members(ring) - {g})
  {
    if g !in ring { RingApplies(ring, |ring|, g); }
  }

  lemma TrackedTwice<T>(ring: seq<T>, g: T)
    requires |ring| > 0 && g != ring[0]
    ensures g in ring ==> Apply(ring[1..], TrackOp(g)) == ring[1..]
  {
    assert ring == [ring[0]] + ring[1..];
  }

  /** Position of g in the ring, and the ring without it. */
  lemma ToUntrack<T>(ring: seq<T>, g: T) returns (k: nat)
    requires |ring| > 0 && g != ring[0] && g in ring && NoDuplicates(ring)
    ensures 0 < k < |ring| && ring[k] == g && Cut(ring, k) != []
    ensures Cut(ring, k)[1..] == Apply(ring[1..], UntrackOp(g))
    ensures Members(Cut(ring, k)) == Members(ring) - {g}
  {
    k := Find(ring, g);
    RingApplies(ring, k, g);
    forall x ensures x in Cut(ring, k) <==> x in ring && x != g { CutHas(ring, k, x); }
  }

  /** PyObject_GC_UnTrack: the macro, if the object is tracked. */
  method PerformUntrack(gen: Generation, g: GcHead, ghost objects: set<GcHead>)
    requires OthersUntracked(gen, objects) && g in objects
    modifies gen`ring, gen.head, objects
    ensures OthersUntracked(gen, objects) && |old(gen.ring)| > 0 && |gen.ring| > 0
    ensures gen.ring[1..] == Apply(old(gen.ring)[1..], UntrackOp(g))
  {
    Parts(gen, objects);
    NotThere(gen.ring, g);
    hide *;
    if g.refs != UNTRACKED {
      UntrackTracked(gen, g, objects);
      FromParts(gen, objects);
    }
  }

  method UntrackTracked(gen: Generation, g: GcHead, ghost objects: set<GcHead>)
    requires gen.Valid() && NoDuplicates(gen.ring) && |gen.ring| > 0 && gen.ring[0] == gen.head && g != gen.head
    requires g in gen.ring && Members(gen.ring) <= {gen.head} + objects
    requires AllUntracked(objects - Members(gen.ring))
    modifies gen`ring, gen.head, objects
    ensures gen.Valid() && |old(gen.ring)| > 0 && |gen.ring| > 0
    ensures gen.ring[1..] == Apply(old(gen.ring)[1..], UntrackOp(g))
    ensures Members(gen.ring) <= {gen.head} + objects && AllUntracked(objects - Members(gen.ring))
  {
    Footprint(gen, objects);
    ghost var rest := objects - Members(gen.ring);
    hide *;
    ghost var k := ToUntrack(gen.ring, g);
    gen.Untrack(g, k);
    OneMore(g, rest, objects - Members(gen.ring));
  }

  lemma OneMore(g: GcHead, rest: set<GcHead>, all: set<GcHead>)
    requires AllUntracked(rest) && g.refs == UNTRACKED && all <= rest + {g}
    ensures AllUntracked(all)
  {
  }

  lemma NotThere<T>(ring: seq<T>, g: T)
    requires |ring| > 0
    ensures g !in ring ==> Apply(ring[1..], UntrackOp(g)) == ring[1..]
  {
    assert ring == [ring[0]] + ring[1..];
  }

  /** One operation, decided by gc_refs alone. */
  method Perform(gen: Generation, op: Op<GcHead>, ghost objects: set<GcHead>)
    requires Agrees(gen, objects) && op.g in objects
    modifies gen`ring, gen.head, objects
    ensures Agrees(gen, objects) && gen.Tracked() == Apply(old(gen.Tracked()), op)
  {
    AgreesIff(gen, objects);
    match op {
      case TrackOp(g) => PerformTrack(gen, g, objects);
      case UntrackOp(g) => PerformUntrack(gen, g, objects);
    }
    AgreesIff(gen, objects);
  }

  /** A whole run leaves in the ring what the theorems above are about, in that order. */
  method PerformRun(gen: Generation, r: Run<GcHead>, ghost objects: set<GcHead>)
    requires Agrees(gen, objects) && gen.Tracked() == [] && Within(r, objects)
    modifies gen`ring, gen.head, objects
    ensures Agrees(gen, objects) && gen.Tracked() == Tracked(r)
    decreases r
  {
    if r.Then? {
      PerformRun(gen, r.before, objects);
      Perform(gen, r.op, objects);
    }
  }
}
