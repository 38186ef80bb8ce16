/** Runs from the initial state that reach what theorems about the mirror machine are conditional on. */
module MirrorWitness {
  import opened Basics
  import opened Mirror
  import opened MirrorRuns

  lemma Goes(r: Run, a: Action, s: State)
    requires Possible(r) && Enabled(After(r), a) && Step(After(r), a) == s
    ensures Possible(Then(r, a)) && After(Then(r, a)) == s
  {
  }

  /** States with the one native object 0 are equal if their parts are. */
  lemma IsState(s: State, z: State)
    requires s.natives.Keys == {0} == z.natives.Keys
    requires s.natives[0].flags == z.natives[0].flags && s.natives[0] == z.natives[0].(flags := s.natives[0].flags)
    requires s.alive == z.alive && s.used == z.used && s.pinned == z.pinned && s.handle == z.handle && s.peers == z.peers
    requires s.early == z.early && s.late == z.late && s.toJava == z.toJava && s.fault == z.fault && s.stale == z.stale
    ensures s == z
  {
    assert s.natives == z.natives;
  }

  // ----- an object with a peer

  const PEER_MADE := Then(Then(Then(Start, NewNative(0, {}, false, false)), BeginJava(0)), EndJava(0, 7))

  function WithPeer(refs: int): State {
    State(map[0 := Header({Initialized, CPeer}, WeakTo(7), false, refs, 1)], {7}, {7}, {}, map[7 := 0], {7},
          map[], multiset{}, multiset{}, false, false)
  }

  /** A peer is made for a native object that native code keeps using ... */
  lemma PeerMade()
    ensures Possible(PEER_MADE) && After(PEER_MADE) == WithPeer(2) && LastOwnersOnly(PEER_MADE)
  {
    var s1 := Init().(natives := map[0 := Header({}, NoRef, false, 1, 0)]);
    var r1 := Then(Start, NewNative(0, {}, false, false));
    Goes(Start, NewNative(0, {}, false, false), s1);
    var s2 := s1.(toJava := multiset{0});
    Goes(r1, BeginJava(0), s2);
    var s3 := Step(s2, EndJava(0, 7));
    assert s3.natives[0].flags == {Initialized, CPeer};
    assert s3 == WithPeer(2);
    hide Step;
    Goes(Then(r1, BeginJava(0)), EndJava(0, 7), s3);
  }

  /** ... the peer is finalized, and converting the object again reads the deleted weak reference. */
  lemma DeletedReferenceRead()
    ensures var r := Then(Then(PEER_MADE, FinalizePeer(7)), BeginJava(0)); Possible(r) && After(r).fault
  {
    PeerMade();
    var s := Step(WithPeer(2), FinalizePeer(7));
    assert s.natives[0] == Header({Initialized, CPeer}, Deleted, false, 1, 0);
    Goes(PEER_MADE, FinalizePeer(7), s);
    Goes(Then(PEER_MADE, FinalizePeer(7)), BeginJava(0), Step(s, BeginJava(0)));
  }

  /** Native code gives up its reference first: the finalizer frees the object and then reads its header. */
  lemma FreedHeaderRead()
    ensures var r := Then(Then(PEER_MADE, Decref(0)), FinalizePeer(7));
            Possible(r) && LastOwnersOnly(r) && After(r).stale && !After(r).fault && 0 !in After(r).natives
  {
    PeerMade();
    assert Step(WithPeer(2), Decref(0)).natives == WithPeer(1).natives;
    Goes(PEER_MADE, Decref(0), WithPeer(1));
    Goes(Then(PEER_MADE, Decref(0)), FinalizePeer(7), Step(WithPeer(1), FinalizePeer(7)));
  }

  // ----- constructors that return existing objects

  const TUPLES :=
    Then(Then(Then(Then(Then(Start, NewJava(1, false)), NewJava(2, false)), BeginEarly(1, 0, {})), EndEarly(0)), ShareTuple(2, 0))

  function TwoTuples(): State {
    State(map[0 := Header({HasHandle, Initialized}, WeakTo(2), true, 2, 0)], {1, 2}, {1, 2}, {}, map[1 := 0, 2 := 0], {},
          map[], multiset{}, multiset{}, false, false)
  }

  /** Two empty Java tuples share the native one: converted to native and back, the first becomes the second. */
  lemma TuplesMeet()
    ensures Possible(TUPLES) && After(TUPLES) == TwoTuples()
    ensures Enabled(TwoTuples(), Lookup(1)) && ToJava(Step(TwoTuples(), Lookup(1)), 0, 3).1 == 2
  {
    var s2 := Init().(alive := {1, 2}, used := {1, 2});
    var r2 := Then(Then(Start, NewJava(1, false)), NewJava(2, false));
    Goes(Start, NewJava(1, false), Init().(alive := {1}, used := {1}));
    Goes(Then(Start, NewJava(1, false)), NewJava(2, false), s2);
    var s3 := s2.(natives := map[0 := Header({HasHandle}, TypeEntry, true, 1, 0)], handle := map[1 := 0], early := map[0 := 1]);
    IsState(Step(s2, BeginEarly(1, 0, {})), s3);
    Goes(r2, BeginEarly(1, 0, {}), s3);
    var s4 := TwoTuples().(natives := map[0 := Header({HasHandle, Initialized}, WeakTo(1), true, 1, 0)], handle := map[1 := 0]);
    IsState(Step(s3, EndEarly(0)), s4);
    Goes(Then(r2, BeginEarly(1, 0, {})), EndEarly(0), s4);
    IsState(Step(s4, ShareTuple(2, 0)), TwoTuples());
    hide Step;
    Goes(Then(Then(r2, BeginEarly(1, 0, {})), EndEarly(0)), ShareTuple(2, 0), TwoTuples());
    JavaNativeJavaIff(TwoTuples(), 1, 3);
  }

  const INTS :=
    Then(Then(Then(Then(Then(Then(Start, NewJava(1, false)), NewJava(2, false)), BeginLate(1)), EndLate(1, 0, {})), BeginLate(2)), ShareLate(2, 0))

  function TwoInts(): State {
    State(map[0 := Header({HasHandle, Initialized}, WeakTo(2), true, 2, 0)], {1, 2}, {1, 2}, {}, map[1 := 0], {},
          map[], multiset{}, multiset{}, false, false)
  }

  /** Two Java ints of one small value: the native int leads to the second, which has no handle. */
  lemma IntsMeet()
    ensures Possible(INTS) && After(INTS) == TwoInts() && Mirrored(TwoInts(), 0, 2) && 2 !in TwoInts().handle
    ensures Enabled(TwoInts(), Lookup(1)) && ToJava(Step(TwoInts(), Lookup(1)), 0, 3).1 == 2
  {
    var s2 := Init().(alive := {1, 2}, used := {1, 2});
    var r2 := Then(Then(Start, NewJava(1, false)), NewJava(2, false));
    Goes(Start, NewJava(1, false), Init().(alive := {1}, used := {1}));
    Goes(Then(Start, NewJava(1, false)), NewJava(2, false), s2);
    Goes(r2, BeginLate(1), s2.(late := multiset{1}));
    var s4 := TwoInts().(natives := map[0 := Header({HasHandle, Initialized}, WeakTo(1), true, 1, 0)]);
    IsState(Step(s2.(late := multiset{1}), EndLate(1, 0, {})), s4);
    Goes(Then(r2, BeginLate(1)), EndLate(1, 0, {}), s4);
    Goes(Then(Then(r2, BeginLate(1)), EndLate(1, 0, {})), BeginLate(2), s4.(late := multiset{2}));
    IsState(Step(s4.(late := multiset{2}), ShareLate(2, 0)), TwoInts());
    hide Step;
    Goes(Then(Then(Then(r2, BeginLate(1)), EndLate(1, 0, {})), BeginLate(2)), ShareLate(2, 0), TwoInts());
    JavaNativeJavaIff(TwoInts(), 1, 3);
  }

  const FREED := Then(Then(INTS, Decref(0)), Decref(0))

  /** Two Java objects share a native one that is freed when native code gives up its references, as two weak references
      to one object may: the handle of the first is left behind, and its next conversion reads the header of the freed
      object -- without any finalizer. */
  lemma LeftHandleRead()
    ensures var r := Then(FREED, Lookup(1));
            && Possible(r) && NoFinalizer(r) && AlwaysUnion(r)
            && !After(FREED).stale && Left(After(FREED), 1) && 1 in After(FREED).alive && After(r).stale
  {
    IntsMeet();
    OneReference();
    NoReference();
    hide Step; hide After; hide Possible;
    Goes(INTS, Decref(0), IntsHeld());
    Goes(Then(INTS, Decref(0)), Decref(0), IntsGone());
    ReadsThrough(FREED, IntsGone(), 1);
    WithoutFinalizer();
    LastOwnersWithout(Then(FREED, Lookup(1)));
    UnionAlwaysIff(Then(FREED, Lookup(1)));
  }

  function IntsHeld(): State {
    TwoInts().(natives := map[0 := Header({HasHandle, Initialized}, WeakTo(2), true, 1, 0)])
  }

  function IntsGone(): State { TwoInts().(natives := map[]) }

  lemma OneReference()
    ensures Enabled(TwoInts(), Decref(0)) && Step(TwoInts(), Decref(0)) == IntsHeld()
  {
  }

  lemma NoReference()
    ensures Enabled(IntsHeld(), Decref(0)) && Step(IntsHeld(), Decref(0)) == IntsGone()
  {
    assert CleanUp(IntsHeld(), 0).handle == map[1 := 0];
    assert CleanUp(IntsHeld(), 0).natives - {0} == map[];
  }

  lemma WithoutFinalizer()
    ensures NoFinalizer(Then(FREED, Lookup(1)))
  {
  }

  lemma ReadsThrough(r: Run, s: State, j: JId)
    requires Possible(r) && After(r) == s && Left(s, j) && j in s.alive
    ensures Possible(Then(r, Lookup(j))) && After(Then(r, Lookup(j))).stale
  {
    Goes(r, Lookup(j), Step(s, Lookup(j)));
  }

  const FIVES :=
    Then(Then(Then(Then(Then(Then(Then(Start, NewJava(1, true)), NewJava(2, false)), BeginLate(1)), EndLate(1, 0, {})),
                   BeginLate(2)), ShareLate(2, 0)), Collect(2))

  function TwoFives(): State {
    State(map[0 := Header({HasHandle, Initialized, Eternal}, WeakTo(2), true, 2, 0)], {1}, {1, 2}, {1}, map[1 := 0], {},
          map[], multiset{}, multiset{}, false, false)
  }

  /** The first of two Java ints is Jython's preallocated one, which marks the native int as eternal; the second takes its
      place and is collected. The next conversion to Java returns the dead reference, without a test. */
  lemma DeadReferenceReturned()
    ensures Possible(FIVES) && After(FIVES) == TwoFives() && Unchecked(TwoFives(), 0) && !Hit(TwoFives(), 0)
  {
    var s2 := Init().(alive := {1, 2}, used := {1, 2}, pinned := {1});
    var r2 := Then(Then(Start, NewJava(1, true)), NewJava(2, false));
    assert {} + {1} == {1} && {1} + {} == {1};
    Goes(Start, NewJava(1, true), Init().(alive := {1}, used := {1}, pinned := {1}));
    Goes(Then(Start, NewJava(1, true)), NewJava(2, false), s2);
    Goes(r2, BeginLate(1), s2.(late := multiset{1}));
    var s4 := TwoFives().(natives := map[0 := Header({HasHandle, Initialized, Eternal}, WeakTo(1), true, 1, 0)], alive := {1, 2});
    IsState(Step(s2.(late := multiset{1}), EndLate(1, 0, {})), s4);
    Goes(Then(r2, BeginLate(1)), EndLate(1, 0, {}), s4);
    Goes(Then(Then(r2, BeginLate(1)), EndLate(1, 0, {})), BeginLate(2), s4.(late := multiset{2}));
    var s6 := TwoFives().(alive := {1, 2});
    IsState(Step(s4.(late := multiset{2}), ShareLate(2, 0)), s6);
    Goes(Then(Then(Then(r2, BeginLate(1)), EndLate(1, 0, {})), BeginLate(2)), ShareLate(2, 0), s6);
    IsState(Step(s6, Collect(2)), TwoFives());
    hide Step;
    Goes(Then(Then(Then(Then(r2, BeginLate(1)), EndLate(1, 0, {})), BeginLate(2)), ShareLate(2, 0)), Collect(2), TwoFives());
  }

  const LETTERS := Then(Then(Then(Start, NewNative(0, {}, true, true)), NewNative(1, {}, true, true)), NewJava(5, false))

  function TwoLetters(): State {
    var h := Header({}, TypeEntry, true, 1, 0);
    Init().(natives := map[0 := h, 1 := h], alive := {5}, used := {5})
  }

  lemma LettersMade()
    ensures Possible(LETTERS) && After(LETTERS) == TwoLetters()
  {
    var h := Header({}, TypeEntry, true, 1, 0);
    var s1 := Init().(natives := map[0 := h]);
    var s2 := Init().(natives := map[0 := h, 1 := h]);
    var r1 := Then(Start, NewNative(0, {}, true, true));
    Goes(Start, NewNative(0, {}, true, true), s1);
    Goes(r1, NewNative(1, {}, true, true), s2);
    Goes(Then(r1, NewNative(1, {}, true, true)), NewJava(5, false), TwoLetters());
  }

  /** Converting a native object without a counterpart makes the letter 5 its counterpart. */
  lemma LetterShared(r: Run, s: State, n: NId)
    requires Possible(r) && After(r) == s && n in s.natives && s.natives[n] == Header({}, TypeEntry, true, 1, 0) && 5 in s.alive
    requires 5 !in s.peers
    ensures var r' := Then(Then(r, BeginJava(n)), ShareJava(n, 5));
            && Possible(r') && After(r').alive == s.alive && After(r').peers == s.peers && Mirrored(After(r'), n, 5) && After(r').handle == s.handle[5 := n]
            && n in After(r').natives && After(r').natives == s.natives[n := After(r').natives[n]]
  {
    var s1 := s.(toJava := s.toJava + multiset{n});
    Goes(r, BeginJava(n), s1);
    ShareJavaMirrors(s1, n, 5);
    hide Step;
    Goes(Then(r, BeginJava(n)), ShareJava(n, 5), Step(s1, ShareJava(n, 5)));
  }

  /** Two native strings of one letter are converted to the one Java string of that letter: the first, converted to Java
      and back, becomes the second. */
  lemma LettersMeet()
    ensures var r := Then(Then(Then(Then(LETTERS, BeginJava(0)), ShareJava(0, 5)), BeginJava(1)), ShareJava(1, 5));
            && Possible(r) && Mirrored(After(r), 0, 5) && Mirrored(After(r), 1, 5) && 5 in After(r).handle
            && After(r).handle[5] == 1
  {
    LettersMade();
    LetterShared(LETTERS, TwoLetters(), 0);
    hide After; hide Possible;
    var r := Then(Then(LETTERS, BeginJava(0)), ShareJava(0, 5));
    LetterShared(r, After(r), 1);
  }

  // ----- objects converted while their conversion is under way

  function JavaOnly(late: multiset<JId>): State {
    Init().(alive := {5}, used := {5}, late := late)
  }

  /** A bound method 5 is asked for again by its own items: two native objects lead to it, it leads to the second. */
  lemma LateReenteredReached()
    ensures var r := Then(Then(Then(Then(Then(Start, NewJava(5, false)), BeginLate(5)), BeginLate(5)), EndLate(5, 0, {})), EndLate(5, 1, {}));
            && Possible(r) && Mirrored(After(r), 0, 5) && Mirrored(After(r), 1, 5) && After(r).handle[5] == 1
  {
    var r3 := Then(Then(Then(Start, NewJava(5, false)), BeginLate(5)), BeginLate(5));
    var s := JavaOnly(multiset{5, 5});
    Goes(Start, NewJava(5, false), JavaOnly(multiset{}));
    Goes(Then(Start, NewJava(5, false)), BeginLate(5), JavaOnly(multiset{5}));
    Goes(Then(Then(Start, NewJava(5, false)), BeginLate(5)), BeginLate(5), s);
    assert Good(s);
    hide Good; hide Step; hide Mirrored;
    LateReentered(s, 5, 0, 1, {});
    Goes(r3, EndLate(5, 0, {}), Step(s, EndLate(5, 0, {})));
    Goes(Then(r3, EndLate(5, 0, {})), EndLate(5, 1, {}), Step(Step(s, EndLate(5, 0, {})), EndLate(5, 1, {})));
  }

  /** A half-built list is converted to Java: the list 5 it is made for remains its counterpart, 6 has no handle. */
  lemma HalfBuiltReached()
    ensures var r := Then(Then(Then(Then(Then(Start, NewJava(5, false)), BeginEarly(5, 0, {})), BeginJava(0)), EndJava(0, 6)), EndEarly(0));
            Possible(r) && Mirrored(After(r), 0, 5) && 6 in After(r).alive && 6 !in After(r).handle
  {
    var r2 := Then(Then(Start, NewJava(5, false)), BeginEarly(5, 0, {}));
    var s0 := JavaOnly(multiset{});
    var s := Step(s0, BeginEarly(5, 0, {}));
    Goes(Start, NewJava(5, false), s0);
    Goes(Then(Start, NewJava(5, false)), BeginEarly(5, 0, {}), s);
    assert Good(s0);
    BenignKeepsGood(s0, BeginEarly(5, 0, {}));
    assert 0 in s.early && s.early[0] == 5 && 0 !in s.toJava && 6 !in s.used;
    hide Good; hide Step; hide Mirrored;
    HalfBuiltConverted(s, 0, 6);
    var s1 := Step(s, BeginJava(0));
    var s2 := Step(s1, EndJava(0, 6));
    Goes(r2, BeginJava(0), s1);
    Goes(Then(r2, BeginJava(0)), EndJava(0, 6), s2);
    Goes(Then(Then(r2, BeginJava(0)), EndJava(0, 6)), EndEarly(0), Step(s2, EndEarly(0)));
  }

  const TRUNCATED := Then(Then(Then(Start, NewNative(0, {Truncate}, true, true)), BeginJava(0)), EndJava(0, 7))

  const DEAD := Then(TRUNCATED, Collect(7))

  function Dead(): State {
    State(map[0 := Header({Truncate, Initialized, HasHandle}, WeakTo(7), true, 1, 0)], {}, {7}, {}, map[], {},
          map[], multiset{}, multiset{}, false, false)
  }

  lemma DeadGood()
    ensures Good(Dead()) && Idle(Dead(), 0)
  {
  }

  lemma TruncatedMirrored()
    ensures Possible(TRUNCATED) && After(TRUNCATED) == Dead().(alive := {7}, handle := map[7 := 0])
  {
    var s1 := Init().(natives := map[0 := Header({Truncate}, TypeEntry, true, 1, 0)]);
    var r1 := Then(Start, NewNative(0, {Truncate}, true, true));
    Goes(Start, NewNative(0, {Truncate}, true, true), s1);
    var s2 := s1.(toJava := multiset{0});
    Goes(r1, BeginJava(0), s2);
    var s3 := Dead().(alive := {7}, handle := map[7 := 0]);
    IsState(Step(s2, EndJava(0, 7)), s3);
    hide Step;
    Goes(Then(r1, BeginJava(0)), EndJava(0, 7), s3);
  }

  /** A truncated object whose counterpart was collected, ready to be converted again. */
  lemma DeadReached()
    ensures Possible(DEAD) && After(DEAD) == Dead() && Good(Dead()) && Idle(Dead(), 0) && 7 !in Dead().alive
  {
    TruncatedMirrored();
    DeadGood();
    hide Good; hide After; hide Possible;
    var s3 := Dead().(alive := {7}, handle := map[7 := 0]);
    IsState(Step(s3, Collect(7)), Dead());
    Goes(TRUNCATED, Collect(7), Dead());
  }
}
