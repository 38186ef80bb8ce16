/** Every run of the mirror machine keeps the mirror relation a partial bijection exactly as long as its steps are
    benign; what conversions return follows from that. */
module MirrorRuns {
  import opened Basics
  import opened Mirror

  // ----- the mirror relation is kept

  lemma SimpleKeepsGood(s: State, a: Action)
    requires Good(s) && Enabled(s, a) && (a.NewJava? || a.BeginLate?)
    ensures Good(Step(s, a))
  {
    var s' := Step(s, a);
    forall m | m in s'.natives ensures GoodNative(s', m) { assert GoodNative(s, m); }
    forall k | k in s'.handle ensures GoodHandle(s', k) { assert GoodHandle(s, k); }
  }

  lemma NewNativeKeeps(s: State, n: NId, flags: set<Flag>, entry: bool, typed: bool)
    requires Good(s) && Enabled(s, NewNative(n, flags, entry, typed))
    ensures Good(Step(s, NewNative(n, flags, entry, typed)))
  {
    var s' := Step(s, NewNative(n, flags, entry, typed));
    assert s'.natives == s.natives[n := s'.natives[n]] && n !in s.early;
    forall m | m in s'.natives ensures GoodNative(s', m) { if m in s.natives { assert GoodNative(s, m); } }
    forall k | k in s'.handle ensures GoodHandle(s', k) { assert GoodHandle(s, k); }
  }

  /** A new native object is registered for a Java object that has none. */
  function Registered(s: State, j: JId, n: NId): State
    requires n in s.natives
  {
    s.(natives := s.natives[n := s.natives[n].(flags := s.natives[n].flags + {HasHandle})],
       handle := s.handle[j := n], early := s.early[n := j])
  }

  ghost predicate ReadyToRegister(s: State, j: JId, n: NId) {
    && Good(s) && n in s.natives && n !in s.early && s.natives[n].jy == TypeEntry && s.natives[n].typed
    && {Initialized, HasHandle} !! s.natives[n].flags && j in s.alive && j !in s.handle
    && s.natives[n].refs > s.natives[n].peerRefs
  }

  lemma RegisteredNative(s: State, j: JId, n: NId, m: NId)
    requires ReadyToRegister(s, j, n) && m in s.natives
    ensures GoodNative(Registered(s, j, n), m)
  {
    assert GoodNative(s, m);
  }

  lemma RegisteredKeeps(s: State, j: JId, n: NId)
    requires ReadyToRegister(s, j, n)
    ensures Good(Registered(s, j, n))
  {
    var s' := Registered(s, j, n);
    forall m | m in s'.natives ensures GoodNative(s', m) { RegisteredNative(s, j, n, m); }
    forall k | k in s'.handle ensures GoodHandle(s', k) { if k != j { assert GoodHandle(s, k); } }
    forall m | m in s'.early ensures GoodEarly(s', m) { if m != n { assert GoodEarly(s, m); } }
    hide GoodNative;
  }

  lemma BeginsEarly(s: State, j: JId, n: NId, flags: set<Flag>)
    requires Enabled(s, BeginEarly(j, n, flags))
    ensures Step(s, BeginEarly(j, n, flags)) == Registered(Step(s, NewNative(n, flags, true, true)), j, n)
  {
  }

  lemma BeginEarlyKeeps(s: State, j: JId, n: NId, flags: set<Flag>)
    requires Good(s) && Enabled(s, BeginEarly(j, n, flags))
    ensures Good(Step(s, BeginEarly(j, n, flags)))
  {
    NewNativeKeeps(s, n, flags, true, true);
    BeginsEarly(s, j, n, flags);
    assert n !in s.early;
    hide Good;
    RegisteredKeeps(Step(s, NewNative(n, flags, true, true)), j, n);
  }

  lemma EndEarlyKeeps(s: State, n: NId)
    requires Good(s) && Enabled(s, EndEarly(n))
    ensures Good(Step(s, EndEarly(n)))
  {
    var s' := Step(s, EndEarly(n));
    assert GoodEarly(s, n) && GoodNative(s, n) && GoodHandle(s, s.early[n]);
    forall m | m in s'.natives ensures GoodNative(s', m) { assert GoodNative(s, m); }
    forall k | k in s'.handle ensures GoodHandle(s', k) { assert GoodHandle(s, k); }
  }

  /** Created, then registered and initialised. */
  lemma EndsLate(s: State, j: JId, n: NId, flags: set<Flag>)
    requires Enabled(s, EndLate(j, n, flags))
    ensures var s1 := Step(s, NewNative(n, flags, true, true));
            && s1 == s.(natives := s.natives[n := Header(flags, TypeEntry, true, 1, 0)])
            && Step(s, EndLate(j, n, flags))
               == s1.(natives := s1.natives[n := Header(flags + Marks(s, j) + {Initialized, HasHandle}, WeakTo(j), true, 1, 0)],
                      handle := s.handle[j := n], late := s.late - multiset{j})
  {
  }

  lemma EndLateKeeps(s: State, j: JId, n: NId, flags: set<Flag>)
    requires Good(s) && Enabled(s, EndLate(j, n, flags)) && j !in s.handle
    ensures Good(Step(s, EndLate(j, n, flags)))
  {
    var s1, s' := Step(s, NewNative(n, flags, true, true)), Step(s, EndLate(j, n, flags));
    NewNativeKeeps(s, n, flags, true, true);
    LatePending(s, j, n);
    LateEnds(s, s1, s', j, n, flags);
    LateApart(s1, j);
    hide *;
    LateHeader(s', n, j, flags + Marks(s, j));
    EndKeepsRest(s1, s', n, j);
  }

  lemma LateEnds(s: State, s1: State, s': State, j: JId, n: NId, flags: set<Flag>)
    requires Enabled(s, EndLate(j, n, flags)) && j in s.alive && j in s.used && !s.fault
    requires s1 == Step(s, NewNative(n, flags, true, true)) && s' == Step(s, EndLate(j, n, flags))
    ensures n in s1.natives && !s1.natives[n].jy.WeakTo? && s1.natives[n].typed && s1.alive == s.alive && s1.handle == s.handle
    ensures n in s'.natives && s'.natives == s1.natives[n := s'.natives[n]] && s'.handle == s1.handle[j := n]
    ensures s'.alive == s1.alive + {j} && s1.used == s'.used && s1.peers == s'.peers && s1.pinned == s'.pinned == s.pinned
    ensures s'.early == s1.early == s.early && s'.late <= s1.late && s'.toJava == s1.toJava == s.toJava && j in s'.used && !s'.fault
    ensures s'.natives[n] == Header(flags + Marks(s, j) + {Initialized, HasHandle}, WeakTo(j), true, 1, 0)
    ensures Eternal in flags + Marks(s, j) ==> j in s'.pinned
  {
    EndsLate(s, j, n, flags);
  }

  lemma LatePending(s: State, j: JId, n: NId)
    requires Good(s) && j in s.late && n !in s.natives
    ensures j in s.alive && j in s.used && n !in s.early && n !in s.toJava && !s.fault
  {
  }

  lemma LateApart(s: State, j: JId)
    requires Good(s) && j in s.alive && j !in s.handle
    ensures forall m :: m in s.natives && s.natives[m].jy.WeakTo? ==> s.natives[m].jy.j != j
  {
    forall m | m in s.natives && s.natives[m].jy.WeakTo? ensures s.natives[m].jy.j != j { assert GoodNative(s, m); }
  }

  lemma LateHeader(s: State, n: NId, j: JId, flags: set<Flag>)
    requires n in s.natives && s.natives[n] == Header(flags + {Initialized, HasHandle}, WeakTo(j), true, 1, 0)
    requires n !in s.early && n !in s.toJava && j in s.used && j in s.handle && s.handle[j] == n
    requires Eternal in flags ==> j in s.pinned
    ensures GoodNative(s, n)
  {
  }

  /** A header without a live counterpart is cleaned up. */
  lemma CleanUpKeeps(s: State, n: NId)
    requires Good(s) && n in s.natives && !Hit(s, n)
    ensures var s' := CleanUp(s, n);
            && Good(s') && s' == s.(natives := s.natives[n := s'.natives[n]])
            && s'.natives[n].jy in {NoRef, TypeEntry}
            && s'.natives[n].refs == s.natives[n].refs && s'.natives[n].peerRefs <= s.natives[n].peerRefs
  {
    var s' := CleanUp(s, n);
    assert GoodNative(s, n);
    assert s'.handle == s.handle && s'.natives == s.natives[n := s'.natives[n]];
    forall m | m in s'.natives ensures GoodNative(s', m) { assert GoodNative(s, m); }
    forall k | k in s'.handle ensures GoodHandle(s', k) { assert GoodHandle(s, k); }
  }

  lemma PendingKeeps(s: State, s': State, n: NId)
    requires Good(s) && n in s.natives && s.natives[n].refs > s.natives[n].peerRefs
    requires s' == s.(toJava := s.toJava + multiset{n})
    ensures Good(s')
  {
    forall m | m in s'.natives ensures GoodNative(s', m) { assert GoodNative(s, m); }
    forall k | k in s'.handle ensures GoodHandle(s', k) { assert GoodHandle(s, k); }
    forall m | m in s'.early ensures GoodEarly(s', m) { assert GoodEarly(s, m); }
    forall k | k in s'.peers ensures GoodPeer(s', k) { assert GoodPeer(s, k); }
  }

  lemma BeginJavaKeeps(s: State, n: NId)
    requires Good(s) && Enabled(s, BeginJava(n))
    ensures Good(Step(s, BeginJava(n)))
  {
    CleanUpKeeps(s, n);
    IsTagged(s, n);
    var s1 := CleanUp(s, n);
    assert Step(s, BeginJava(n)) == s1.(toJava := s1.toJava + multiset{n});
    hide Good;
    hide CleanUp;
    PendingKeeps(s1, Step(s, BeginJava(n)), n);
  }

  /** The header is tagged, so it can be read as what its flags say. */
  lemma IsTagged(s: State, n: NId)
    requires Good(s) && n in s.natives
    ensures Tagged(s.natives[n])
  {
    assert GoodNative(s, n);
  }

  lemma EndTypedKeeps(s: State, n: NId, j: JId)
    requires Good(s) && Enabled(s, EndJava(n, j)) && Benign(s, EndJava(n, j)) && s.natives[n].typed
    ensures Good(Step(s, EndJava(n, j)))
  {
    var s' := Step(s, EndJava(n, j));
    assert GoodNative(s, n);
    assert s'.handle == s.handle[j := n] && s'.natives == s.natives[n := s'.natives[n]] && s'.alive == s.alive + {j};
    NoHandleUnused(s, j);
    EndKeepsRest(s, s', n, j);
  }

  lemma EndPeerKeeps(s: State, n: NId, j: JId)
    requires Good(s) && Enabled(s, EndJava(n, j)) && Benign(s, EndJava(n, j)) && !s.natives[n].typed
    ensures Good(Step(s, EndJava(n, j)))
  {
    var s' := Step(s, EndJava(n, j));
    assert GoodNative(s, n);
    assert s'.handle == s.handle[j := n] && s'.natives == s.natives[n := s'.natives[n]] && s'.alive == s.alive + {j};
    NoHandleUnused(s, j);
    EndKeepsRest(s, s', n, j);
  }

  lemma NoHandleUnused(s: State, j: JId)
    requires Good(s) && j !in s.used
    ensures j !in s.handle && j !in s.alive && forall m :: m in s.natives && s.natives[m].jy.WeakTo? ==> s.natives[m].jy.j != j
  {
    assert j !in s.alive;
    forall m | m in s.natives && s.natives[m].jy.WeakTo? ensures s.natives[m].jy.j != j { assert GoodNative(s, m); }
  }

  /** A native object that nothing led to and a new Java object become each other's counterparts. */
  lemma EndKeepsRest(s: State, s': State, n: NId, j: JId)
    requires Good(s) && n in s.natives && j !in s.handle && n !in s.early && !s.natives[n].jy.WeakTo?
    requires forall m :: m in s.natives && s.natives[m].jy.WeakTo? ==> s.natives[m].jy.j != j
    requires n in s'.natives && s'.natives == s.natives[n := s'.natives[n]] && s'.handle == s.handle[j := n]
    requires s'.alive == s.alive + {j} && s.used <= s'.used && s.peers <= s'.peers <= s.peers + {j}
    requires s'.early == s.early && s'.late <= s.late && s'.toJava <= s.toJava && j in s'.used && !s'.fault
    requires s'.natives[n].jy == WeakTo(j) && s'.natives[n].typed == s.natives[n].typed && GoodNative(s', n)
    requires j in s'.peers ==> !s.natives[n].typed
    requires s'.pinned == s.pinned
    ensures Good(s')
  {
    forall m | m in s'.natives ensures GoodNative(s', m) { if m != n { assert GoodNative(s, m); } }
    forall k | k in s'.handle ensures GoodHandle(s', k) { if k != j { assert GoodHandle(s, k); } }
    forall k | k in s'.peers ensures GoodPeer(s', k) { if k != j { assert GoodPeer(s, k); } }
    forall m | m in s'.early ensures GoodEarly(s', m) { assert GoodEarly(s, m); }
  }

  lemma CollectKeeps(s: State, j: JId)
    requires Good(s) && Enabled(s, Collect(j))
    ensures Good(Step(s, Collect(j)))
  {
    var s' := Step(s, Collect(j));
    forall m | m in s'.natives ensures GoodNative(s', m) { assert GoodNative(s, m); }
    forall k | k in s'.handle ensures GoodHandle(s', k) { assert GoodHandle(s, k); }
  }

  /** References are taken or given up, and enough remain. */
  lemma RefsKeep(s: State, s': State, n: NId, refs: int)
    requires Good(s) && n in s.natives && refs >= s.natives[n].peerRefs + InUse(s, n)
    requires s' == s.(natives := s.natives[n := s.natives[n].(refs := refs)])
    ensures Good(s')
  {
    forall m | m in s'.natives ensures GoodNative(s', m) { assert GoodNative(s, m); }
    forall k | k in s'.handle ensures GoodHandle(s', k) { assert GoodHandle(s, k); }
    forall m | m in s'.early ensures GoodEarly(s', m) { assert GoodEarly(s, m); }
  }

  lemma IncrefKeeps(s: State, n: NId)
    requires Good(s) && n in s.natives
    ensures Good(Step(s, Incref(n)))
  {
    assert GoodNative(s, n);
    RefsKeep(s, Step(s, Incref(n)), n, s.natives[n].refs + 1);
  }

  /** A native object that no conversion uses is removed with its handle, and perhaps its counterpart. */
  lemma RemovedKeeps(s: State, s': State, n: NId, gone: set<JId>)
    requires Good(s) && n in s.natives && n !in s.early && n !in s.toJava
    requires forall j :: j in s.handle ==> (j in gone <==> s.handle[j] == n)
    requires s'.natives == s.natives - {n} && s'.handle == s.handle - gone && s'.peers == s.peers - gone
    requires s'.alive <= s.alive && s.alive <= s'.alive + gone && (forall j :: j in s.late ==> j in s'.alive)
    requires s'.used == s.used && s'.early == s.early && s'.late == s.late && s'.toJava == s.toJava && !s'.fault
    requires s'.pinned == s.pinned && s.pinned <= s'.alive
    ensures Good(s')
  {
    forall k | k in s'.handle ensures GoodHandle(s', k) { assert GoodHandle(s, k); }
    forall m | m in s'.natives ensures GoodNative(s', m) { assert GoodNative(s, m); }
    forall m | m in s'.early ensures GoodEarly(s', m) { assert GoodEarly(s, m); }
    forall k | k in s'.peers ensures GoodPeer(s', k) { assert GoodPeer(s, k); }
  }

  /** What leads to a native object that is not half-built. */
  lemma LedToBy(s: State, n: NId, j: JId)
    requires Good(s) && n in s.natives && n !in s.early && j in s.handle
    ensures s.handle[j] == n <==> s.natives[n].jy == WeakTo(j) && j in s.alive
    ensures j in s.peers && s.handle[j] == n ==> !s.natives[n].typed
  {
    assert GoodHandle(s, j) && GoodNative(s, n);
    if j in s.peers { assert GoodPeer(s, j); }
  }

  ghost function LiveFrom(s: State, n: NId): set<JId>
    requires n in s.natives
  {
    if s.natives[n].jy.WeakTo? && s.natives[n].jy.j in s.alive then {s.natives[n].jy.j} else {}
  }

  lemma FreedEffect(s: State, n: NId)
    requires n in s.natives && GoodNative(s, n) && s.natives[n].refs == 1 && (!s.natives[n].typed ==> s.natives[n].peerRefs == 0)
    ensures var s' := Release(s, n);
            s' == s.(natives := s.natives - {n}, handle := s.handle - LiveFrom(s, n))
  {
    assert s.natives[n := s.natives[n].(flags := {}, jy := NoRef)] - {n} == s.natives - {n};
  }

  lemma FreedKeeps(s: State, n: NId)
    requires Good(s) && Enabled(s, Decref(n)) && s.natives[n].refs == 1
    ensures Good(Step(s, Decref(n)))
  {
    assert GoodNative(s, n);
    var gone := LiveFrom(s, n);
    FreedEffect(s, n);
    hide Release;
    forall j | j in s.handle ensures j in gone <==> s.handle[j] == n { LedToBy(s, n, j); }
    assert s.peers - gone == s.peers by { if gone != {} { LedToBy(s, n, s.natives[n].jy.j); } }
    RemovedKeeps(s, Release(s, n), n, gone);
  }

  lemma DecrefKeeps(s: State, n: NId)
    requires Good(s) && Enabled(s, Decref(n))
    ensures Good(Step(s, Decref(n)))
  {
    if s.natives[n].refs == 1 { FreedKeeps(s, n); } else { RefsKeep(s, Step(s, Decref(n)), n, s.natives[n].refs - 1); }
  }

  lemma LastOwnerEffect(s: State, j: JId)
    requires Enabled(s, FinalizePeer(j)) && Exists(s, j) && LastOwner(s, j) && GoodNative(s, s.handle[j])
    requires s.natives[s.handle[j]].jy == WeakTo(j) && !s.natives[s.handle[j]].typed
    ensures var s' := Step(s, FinalizePeer(j));
            s' == s.(natives := s.natives - {s.handle[j]}, handle := s.handle - {j}, alive := s.alive - {j},
                     peers := s.peers - {j}, stale := true)
    ensures s.handle[j] !in s.toJava
  {
    assert Step(s, FinalizePeer(j)).natives == s.natives - {s.handle[j]};
  }

  /** A peer that owns the last reference takes its native object with it. */
  lemma LastOwnerKeeps(s: State, j: JId)
    requires Good(s) && Enabled(s, FinalizePeer(j)) && LastOwner(s, j)
    ensures Good(Step(s, FinalizePeer(j)))
  {
    assert GoodPeer(s, j) && GoodHandle(s, j) && GoodNative(s, s.handle[j]);
    assert forall m :: m in s.early ==> GoodEarly(s, m);
    LastOwnerEffect(s, j);
    forall k | k in s.handle ensures k in {j} <==> s.handle[k] == s.handle[j] { LedToBy(s, s.handle[j], k); }
    assert forall k :: k in s.late ==> k in s.alive - {j};
    hide Step;
    RemovedKeeps(s, Step(s, FinalizePeer(j)), s.handle[j], {j});
  }

  lemma LookupKeeps(s: State, j: JId)
    requires Good(s) && Enabled(s, Lookup(j))
    ensures Good(Step(s, Lookup(j)))
  {
    assert GoodHandle(s, j);
    assert Step(s, Lookup(j)) == Step(s, Incref(s.handle[j]));
    hide Step;
    IncrefKeeps(s, s.handle[j]);
  }

  // ----- constructors that return existing objects

  /** What INIT_JY leaves of a finished object and a Java object that it joins. */
  function Joined(s: State, n: NId, j: JId, marks: set<Flag>): State
    requires n in s.natives
  {
    var h := s.natives[n];
    s.(natives := s.natives[n := h.(jy := WeakTo(j), flags := h.flags + marks + {Initialized, HasHandle})],
       handle := s.handle[j := n])
  }

  ghost predicate MarksFit(s: State, j: JId, marks: set<Flag>) { marks == {} || (marks == {Eternal} && j in s.pinned) }

  /** Both had no counterparts. */
  lemma JoinKeeps(s: State, n: NId, j: JId, marks: set<Flag>)
    requires Good(s) && n in s.natives && s.natives[n].typed && n !in s.early && !Hit(s, n) && j in s.alive && j !in s.handle
    requires MarksFit(s, j, marks)
    ensures Good(Joined(s, n, j, marks))
  {
    var s' := Joined(s, n, j, marks);
    forall m | m in s'.natives ensures GoodNative(s', m) { assert GoodNative(s, m); }
    forall k | k in s'.handle ensures GoodHandle(s', k) {
      if k != j { assert GoodHandle(s, k); }
    }
    forall m | m in s'.early ensures GoodEarly(s', m) { assert GoodEarly(s, m); }
    forall k | k in s'.peers ensures GoodPeer(s', k) { assert GoodPeer(s, k); }
  }

  /** They were each other's counterparts already. */
  lemma MarkKeeps(s: State, n: NId, j: JId, marks: set<Flag>)
    requires Good(s) && n in s.natives && s.natives[n].jy == WeakTo(j) && MarksFit(s, j, marks)
    ensures Good(Marked(s, n, marks))
  {
    var s' := Marked(s, n, marks);
    forall m | m in s'.natives ensures GoodNative(s', m) { assert GoodNative(s, m); }
    forall k | k in s'.handle ensures GoodHandle(s', k) { assert GoodHandle(s, k); }
    forall m | m in s'.early ensures GoodEarly(s', m) { assert GoodEarly(s, m); }
    forall k | k in s'.peers ensures GoodPeer(s', k) { assert GoodPeer(s, k); }
  }

  lemma FewerPending(s: State, s': State)
    requires Good(s) && s' == s.(late := s'.late, toJava := s'.toJava) && s'.late <= s.late && s'.toJava <= s.toJava
    ensures Good(s')
  {
    forall m | m in s'.natives ensures GoodNative(s', m) { assert GoodNative(s, m); }
    forall k | k in s'.handle ensures GoodHandle(s', k) { assert GoodHandle(s, k); }
    forall m | m in s'.early ensures GoodEarly(s', m) { assert GoodEarly(s, m); }
    forall k | k in s'.peers ensures GoodPeer(s', k) { assert GoodPeer(s, k); }
  }

  lemma TakeKeeps(s: State, n: NId)
    requires Good(s) && n in s.natives
    ensures Good(TakeReference(s, n))
  {
    assert GoodNative(s, n);
    RefsKeep(s, TakeReference(s, n), n, s.natives[n].refs + 1);
  }

  lemma ShareTupleKeeps(s: State, j: JId, n: NId)
    requires Good(s) && Enabled(s, ShareTuple(j, n)) && !Hit(s, n)
    ensures Good(Step(s, ShareTuple(j, n)))
  {
    var s1 := TakeReference(s, n);
    TakeKeeps(s, n);
    hide Good;
    JoinKeeps(s1, n, j, {});
    RegisterInits(s1, j, n);
  }

  lemma RegisterInits(s: State, j: JId, n: NId)
    requires n in s.natives
    ensures InitJy(Register(s, j, n), j, n) == Joined(s, n, j, {})
  {
    var h := s.natives[n];
    assert h.flags + {HasHandle} + {Initialized, HasHandle} == h.flags + {} + {Initialized, HasHandle};
    assert InitJy(Register(s, j, n), j, n).natives == Joined(s, n, j, {}).natives;
  }

  /** INIT_JY of a finished object. */
  lemma InitsJoined(s: State, n: NId, j: JId, marks: set<Flag>)
    requires n in s.natives && HasHandle !in s.natives[n].flags + marks
    ensures InitJy(Marked(s, n, marks), j, n) == Joined(s, n, j, marks)
  {
  }

  lemma InitKeepsIff(s: State, n: NId, j: JId, marks: set<Flag>)
    requires Good(s) && n in s.natives && s.natives[n].typed && j in s.alive && MarksFit(s, j, marks)
    ensures Good(InitJy(Marked(s, n, marks), j, n)) <==> Joins(s, n, j)
  {
    assert GoodNative(s, n);
    hide Good; hide GoodNative; hide InitJy; hide Joined;
    if s.natives[n].jy == WeakTo(j) {
      MarkKeeps(s, n, j, marks);
      InitsAgain(s, n, j, marks);
    } else if Joins(s, n, j) {
      JoinKeeps(s, n, j, marks);
      InitsJoined(s, n, j, marks);
    } else {
      JoinBreaks(s, n, j, marks);
    }
  }

  lemma InitsAgain(s: State, n: NId, j: JId, marks: set<Flag>)
    requires n in s.natives && s.natives[n].jy == WeakTo(j) && {Initialized, HasHandle} <= s.natives[n].flags
    ensures InitJy(Marked(s, n, marks), j, n) == Marked(s, n, marks)
  {
    var h := s.natives[n];
    assert h.flags + marks + {Initialized, HasHandle} == h.flags + marks;
    assert InitJy(Marked(s, n, marks), j, n).natives == Marked(s, n, marks).natives;
  }

  lemma JoinBreaks(s: State, n: NId, j: JId, marks: set<Flag>)
    requires Good(s) && n in s.natives && s.natives[n].typed && j in s.alive && !Joins(s, n, j) && MarksFit(s, j, marks)
    ensures !Good(InitJy(Marked(s, n, marks), j, n))
  {
    var s' := InitJy(Marked(s, n, marks), j, n);
    assert GoodNative(s, n);
    if n in s.early {
      assert !GoodNative(s', n);
    } else if HasHandle in s.natives[n].flags {
      if j in s.handle { assert GoodHandle(s, j); }
      assert !GoodNative(s', n);
    } else {
      assert GoodHandle(s, j);
      var m := s.handle[j];
      assert m in s'.natives && !(if m in s'.early then GoodEarly(s', m) else GoodNative(s', m));
    }
  }

  lemma ShareLateIs(s: State, j: JId, n: NId)
    requires Enabled(s, ShareLate(j, n))
    ensures var s1 := TakeReference(s, n); var s2 := s1.(late := s1.late - multiset{j});
            n in s2.natives && Step(s, ShareLate(j, n)) == InitJy(Marked(s2, n, Marks(s, j)), j, n)
  {
    hide InitJy;
  }

  lemma ShareLateIff(s: State, j: JId, n: NId)
    requires Good(s) && Enabled(s, ShareLate(j, n))
    ensures Good(Step(s, ShareLate(j, n))) <==> Joins(s, n, j)
  {
    var s1 := TakeReference(s, n);
    var s2 := s1.(late := s1.late - multiset{j});
    assert j in s.alive;
    TakeKeeps(s, n);
    FewerPending(s1, s2);
    hide Good;
    ShareLateIs(s, j, n);
    hide Step;
    InitKeepsIff(s2, n, j, Marks(s, j));
  }

  lemma ShareJavaIff(s: State, n: NId, j: JId)
    requires Good(s) && Enabled(s, ShareJava(n, j))
    ensures Good(Step(s, ShareJava(n, j))) <==> Joins(s, n, j)
  {
    var s1 := s.(toJava := s.toJava - multiset{n});
    FewerPending(s, s1);
    assert Marked(s1, n, {}) == s1 by { assert s1.natives[n].flags + {} == s1.natives[n].flags; }
    hide Good;
    InitKeepsIff(s1, n, j, {});
  }

  /** A shared tuple is taken away from the live counterpart it had, whose handle still leads to it. */
  lemma ShareTupleBreaks(s: State, j: JId, n: NId)
    requires Good(s) && Enabled(s, ShareTuple(j, n)) && Hit(s, n)
    ensures var k := s.natives[n].jy.j; var s' := Step(s, ShareTuple(j, n));
            k != j && k in s'.handle && s'.handle[k] == n && s'.natives[n].jy == WeakTo(j) && !Good(s')
  {
    var k := s.natives[n].jy.j;
    assert GoodNative(s, n);
    assert !GoodHandle(Step(s, ShareTuple(j, n)), k);
  }

  lemma BenignKeepsGood(s: State, a: Action)
    requires Good(s) && Enabled(s, a) && Benign(s, a)
    ensures Good(Step(s, a))
  {
    hide Good;
    hide Step;
    match a
    case NewNative(n, flags, entry, typed) => NewNativeKeeps(s, n, flags, entry, typed);
    case BeginEarly(j, n, flags) => BeginEarlyKeeps(s, j, n, flags);
    case EndEarly(n) => EndEarlyKeeps(s, n);
    case EndLate(j, n, flags) => EndLateKeeps(s, j, n, flags);
    case BeginJava(n) => BeginJavaKeeps(s, n);
    case EndJava(n, j) => if s.natives[n].typed { EndTypedKeeps(s, n, j); } else { EndPeerKeeps(s, n, j); }
    case Collect(j) => CollectKeeps(s, j);
    case ShareTuple(j, n) => ShareTupleKeeps(s, j, n);
    case ShareLate(j, n) => ShareLateIff(s, j, n);
    case ShareJava(n, j) => ShareJavaIff(s, n, j);
    case Lookup(j) => LookupKeeps(s, j);
    case Incref(n) => IncrefKeeps(s, n);
    case Decref(n) => DecrefKeeps(s, n);
    case FinalizePeer(j) => LastOwnerKeeps(s, j);
    case _ => SimpleKeepsGood(s, a);
  }

  /** An object registered last whose handle was set meanwhile takes the handle away from the first native object. */
  lemma LateOverwrites(s: State, j: JId, n: NId, flags: set<Flag>)
    requires Good(s) && Enabled(s, EndLate(j, n, flags)) && j in s.handle
    ensures var s' := Step(s, EndLate(j, n, flags)); var m := s.handle[j];
            m in s'.natives && !(if m in s'.early then GoodEarly(s', m) else GoodNative(s', m))
  {
    assert GoodHandle(s, j) && j in s.alive;
  }

  /** An object that got its counterpart while it was converted to Java is given a second one. */
  lemma SecondCounterpart(s: State, n: NId, j: JId)
    requires Good(s) && Enabled(s, EndJava(n, j)) && !Benign(s, EndJava(n, j))
    ensures !Good(Step(s, EndJava(n, j)))
  {
    var s' := Step(s, EndJava(n, j));
    assert GoodNative(s, n);
    NoHandleUnused(s, j);
    if s.natives[n].typed {
      assert !GoodNative(s', n);
    } else {
      var k := s.natives[n].jy.j;
      assert GoodPeer(s, k) && k in s'.handle && !GoodHandle(s', k);
    }
  }

  /** A step from a good state leads to a good state exactly if it is benign. */
  lemma GoodIffBenign(s: State, a: Action)
    requires Good(s) && Enabled(s, a)
    ensures Good(Step(s, a)) <==> Benign(s, a)
  {
    if Benign(s, a) {
      BenignKeepsGood(s, a);
    } else {
      match a
      case EndLate(j, n, flags) => LateOverwrites(s, j, n, flags);
      case EndJava(n, j) => SecondCounterpart(s, n, j);
      case ShareTuple(j, n) => ShareTupleBreaks(s, j, n);
      case ShareLate(j, n) => ShareLateIff(s, j, n);
      case ShareJava(n, j) => ShareJavaIff(s, n, j);
      case FinalizePeer(j) => FinalizerBreaksUnion(s, j);
    }
  }

  // ----- whole runs

  datatype Run = Start | Then(before: Run, a: Action)

  ghost function After(r: Run): State
    requires Possible(r)
    decreases r, 1
  {
    match r
    case Start => Init()
    case Then(before, a) => Step(After(before), a)
  }

  ghost predicate Possible(r: Run)
    decreases r, 0
  {
    match r
    case Start => true
    case Then(before, a) => Possible(before) && Enabled(After(before), a)
  }

  /** Good after every step of the run. */
  ghost predicate AlwaysGood(r: Run)
    requires Possible(r)
  {
    match r
    case Start => Good(Init())
    case Then(before, a) => AlwaysGood(before) && Good(After(r))
  }

  ghost predicate AllBenign(r: Run)
    requires Possible(r)
  {
    match r
    case Start => true
    case Then(before, a) => AllBenign(before) && Benign(After(before), a)
  }

  lemma {:induction false} AlwaysGoodIffBenign(r: Run)
    requires Possible(r)
    ensures AlwaysGood(r) <==> AllBenign(r)
  {
    hide Good;
    hide Step;
    hide Enabled;
    match r
    case Start => StartGood();
    case Then(before, a) =>
      AlwaysGoodIffBenign(before);
      if AlwaysGood(before) {
        AlwaysEnds(before);
        GoodIffBenign(After(before), a);
      }
  }

  lemma StartGood()
    ensures Good(Init())
  {
  }

  lemma AlwaysEnds(r: Run)
    requires Possible(r) && AlwaysGood(r)
    ensures Good(After(r))
  {
  }

  // ----- headers are read as what they are

  ghost predicate AlwaysUnion(r: Run)
    requires Possible(r)
  {
    match r
    case Start => Union(Init())
    case Then(before, a) => AlwaysUnion(before) && Union(After(r))
  }

  /** No peer is finalized while its object has another owner. */
  ghost predicate LastOwnersOnly(r: Run)
    requires Possible(r)
  {
    match r
    case Start => true
    case Then(before, a) => LastOwnersOnly(before) && (a.FinalizePeer? ==> LastOwner(After(before), a.j))
  }

  /** Whatever conversions re-enter: no header field is ever of the wrong kind or read as such exactly as long as no
      peer is finalized whose object has another owner. */
  lemma {:induction false} UnionAlwaysIff(r: Run)
    requires Possible(r)
    ensures AlwaysUnion(r) <==> LastOwnersOnly(r)
  {
    hide Union;
    hide Step;
    hide Enabled;
    hide LastOwner;
    match r
    case Start => EmptyUnion();
    case Then(before, a) =>
      UnionAlwaysIff(before);
      if AlwaysUnion(before) {
        UnionEnds(before);
        UnionKeptIff(After(before), a);
      }
  }

  lemma UnionEnds(r: Run)
    requires Possible(r) && AlwaysUnion(r)
    ensures Union(After(r))
  {
  }

  lemma EmptyUnion()
    ensures Union(Init())
  {
  }

  ghost predicate NoFinalizer(r: Run) { r.Then? ==> NoFinalizer(r.before) && !r.a.FinalizePeer? }

  /** Every conversion to native finds the object that the handle leads to. */
  ghost predicate HandlesLead(r: Run)
    requires Possible(r)
  {
    match r
    case Start => true
    case Then(before, a) => HandlesLead(before) && (a.Lookup? ==> Exists(After(before), a.j))
  }

  lemma {:induction false} StaleAlways(r: Run)
    requires Possible(r) && LastOwnersOnly(r)
    ensures After(r).stale <==> !(NoFinalizer(r) && HandlesLead(r))
  {
    hide Step;
    hide Enabled;
    hide LastOwner;
    hide Exists;
    if r.Then? {
      StaleAlways(r.before);
      StaleIff(After(r.before), r.a);
    }
  }

  lemma {:induction false} LastOwnersWithout(r: Run)
    requires Possible(r) && NoFinalizer(r)
    ensures LastOwnersOnly(r)
  {
    if r.Then? { LastOwnersWithout(r.before); }
  }

  /** And every header read is that of an existing object, too, exactly as long as no peer is finalized -- a finalizer
      that gives up the last reference reads the header of the object it has freed -- and no object is converted to
      native whose handle was left by an object that was freed. */
  lemma ReadsRightIff(r: Run)
    requires Possible(r)
    ensures AlwaysUnion(r) && !After(r).stale <==> NoFinalizer(r) && HandlesLead(r)
  {
    UnionAlwaysIff(r);
    if LastOwnersOnly(r) { StaleAlways(r); }
    if NoFinalizer(r) { LastOwnersWithout(r); }
  }

  // ----- handles that are left

  /** The handle of k leads nowhere. */
  predicate Left(s: State, k: JId) { k in s.handle && s.handle[k] !in s.natives }

  /** Clean-up clears the handle of the one Java object that the header leads to. */
  predicate Cleared(s: State, n: NId, k: JId) {
    n in s.natives && {Initialized, HasHandle} <= s.natives[n].flags && s.natives[n].jy == WeakTo(k) && k in s.alive
  }

  /** The native object that a step may free. */
  predicate Frees(s: State, a: Action, n: NId) {
    && n in s.natives && s.natives[n].refs == 1
    && (a == Decref(n) || (a.FinalizePeer? && Exists(s, a.j) && s.handle[a.j] == n))
  }

  /** Giving up a reference leaves the handle of k behind exactly if it frees the object and k is another Java object
      than the one in its header. */
  lemma ReleaseLeavesIff(s: State, n: NId, k: JId)
    requires n in s.natives && !Left(s, k)
    ensures Left(Release(s, n), k) <==>
              s.natives[n].refs == 1 && k in s.handle && s.handle[k] == n && !Cleared(s, n, k)
  {
  }

  /** No other step leaves a handle behind. */
  lemma StepLeavesIff(s: State, a: Action, k: JId)
    requires Enabled(s, a) && !Left(s, k)
    ensures Left(Step(s, a), k) <==>
              exists n :: Frees(s, a, n) && k in s.handle && s.handle[k] == n && !Cleared(s, n, k)
                          && a != FinalizePeer(k)
  {
    if a.Decref? {
      ReleaseLeavesIff(s, a.n, k);
      hide Release;
      assert Left(Step(s, a), k) ==> Frees(s, a, a.n);
    } else if a.FinalizePeer? {
      FinalizerLeavesIff(s, a.j, k);
      hide Step;
      if Exists(s, a.j) { assert Left(Step(s, a), k) ==> Frees(s, a, s.handle[a.j]); }
    } else {
      OthersLeaveNone(s, a, k);
    }
  }

  lemma FinalizerLeavesIff(s: State, j: JId, k: JId)
    requires Enabled(s, FinalizePeer(j)) && !Left(s, k)
    ensures Left(Step(s, FinalizePeer(j)), k) <==>
              && Exists(s, j) && s.natives[s.handle[j]].refs == 1 && k in s.handle
              && s.handle[k] == s.handle[j] && !Cleared(s, s.handle[j], k) && k != j
  {
    if Exists(s, j) {
      var n := s.handle[j];
      var s1 := WithoutPeer(s, j, n);
      ReleaseLeavesIff(s1, n, k);
      assert k != j ==> (Cleared(s1, n, k) <==> Cleared(s, n, k));
      var z := Release(s1, n);
      hide Release;
      assert z.natives.Keys == DeleteReference(z, n).natives.Keys;
    }
  }

  lemma OthersLeaveNone(s: State, a: Action, k: JId)
    requires Enabled(s, a) && !Left(s, k) && !a.Decref? && !a.FinalizePeer?
    ensures !Left(Step(s, a), k)
  {
    hide InitJy; hide MissJava;
    match a
    case EndEarly(n) => InitLeavesNone(s.(early := s.early - {n}), s.early[n], n, k);
    case EndLate(j, n, flags) =>
      InitLeavesNone(s.(natives := s.natives[n := Header(flags + Marks(s, j), TypeEntry, true, 1, 0)],
                        late := s.late - multiset{j}), j, n, k);
    case ShareTuple(j, n) => InitLeavesNone(Register(TakeReference(s, n), j, n), j, n, k);
    case ShareLate(j, n) => InitLeavesNone(Marked(TakeReference(s, n), n, Marks(s, j)).(late := s.late - multiset{j}), j, n, k);
    case ShareJava(n, j) => InitLeavesNone(s.(toJava := s.toJava - multiset{n}), j, n, k);
    case EndJava(n, j) =>
      InitLeavesNone(s.(alive := s.alive + {j}, used := s.used + {j}, toJava := s.toJava - multiset{n}), j, n, k);
    case BeginJava(n) => MissLeavesNone(s, n, k);
    case _ =>
  }

  lemma InitLeavesNone(s: State, j: JId, n: NId, k: JId)
    requires n in s.natives && !Left(s, k)
    ensures !Left(InitJy(s, j, n), k)
  {
  }

  lemma MissLeavesNone(s: State, n: NId, k: JId)
    requires n in s.natives && !Left(s, k)
    ensures !Left(MissJava(s, n), k)
  {
  }

  /** As long as steps are benign no handle is left, so runs of benign steps without a finalizer read right. */
  lemma {:induction false} BenignLeads(r: Run)
    requires Possible(r) && AllBenign(r)
    ensures HandlesLead(r) && AlwaysUnion(r) && forall k :: !Left(After(r), k)
  {
    AlwaysGoodIffBenign(r);
    AlwaysEnds(r);
    if r.Then? {
      BenignLeads(r.before);
      AlwaysGoodIffBenign(r.before);
      AlwaysEnds(r.before);
      if r.a.Lookup? { assert GoodHandle(After(r.before), r.a.j); }
    }
    GoodLeads(After(r));
  }

  lemma GoodLeads(s: State)
    requires Good(s)
    ensures Union(s) && forall k :: !Left(s, k)
  {
    forall n | n in s.natives ensures Tagged(s.natives[n]) { assert GoodNative(s, n); }
    forall k ensures !Left(s, k) { if k in s.handle { assert GoodHandle(s, k); } }
  }

  lemma BenignReadsRight(r: Run)
    requires Possible(r) && AllBenign(r) && NoFinalizer(r)
    ensures AlwaysUnion(r) && !After(r).stale
  {
    BenignLeads(r);
    ReadsRightIff(r);
  }

  // ----- reference counts over a run

  /** References to n given minus references given up since n was made last. */
  ghost function Balance(r: Run, n: NId): int
    requires Possible(r)
  {
    match r
    case Start => 0
    case Then(before, a) =>
      if Makes(a, n) then 1
      else if n in After(before).natives then Balance(before, n) + Adds(After(before), a, n)
      else 0
  }

  /** Whatever conversions, collection and finalizers do: a native object exists exactly as long as its references do not
      balance, and its count is the balance. */
  lemma {:induction false} CountsBalance(r: Run, n: NId)
    requires Possible(r)
    ensures Balance(r, n) >= 0 && (n in After(r).natives <==> Balance(r, n) > 0)
    ensures n in After(r).natives ==> After(r).natives[n].refs == Balance(r, n)
  {
    hide Step;
    if r.Then? {
      CountsBalance(r.before, n);
      if Makes(r.a, n) { MadeFresh(After(r.before), r.a, n); }
      hide Enabled;
      CountsFollow(After(r.before), r.a, n);
    }
  }

  lemma MadeFresh(s: State, a: Action, n: NId)
    requires Enabled(s, a) && Makes(a, n)
    ensures n !in s.natives
  {
  }

  // ----- the relation and the conversions

  /** The header of n leads to the live Java object j. */
  predicate Mirrored(s: State, n: NId, j: JId) { Hit(s, n) && s.natives[n].jy.j == j }

  /** Both directions of the lookup agree, and the relation is a partial bijection. */
  lemma PartialBijection(s: State, n: NId, j: JId)
    requires Good(s)
    ensures Mirrored(s, n, j) <==> j in s.handle && s.handle[j] == n && n !in s.early
    ensures forall m :: Mirrored(s, n, j) && Mirrored(s, m, j) ==> m == n
    ensures forall k :: j in s.handle && k in s.handle && s.handle[j] == s.handle[k] ==> j == k
  {
    if n in s.natives { assert GoodNative(s, n); }
    if n in s.early { assert GoodEarly(s, n); }
    if j in s.handle { assert GoodHandle(s, j); }
    forall m | Mirrored(s, n, j) && Mirrored(s, m, j) ensures m == n { assert GoodNative(s, m); }
    forall k | j in s.handle && k in s.handle && s.handle[j] == s.handle[k] ensures j == k { assert GoodHandle(s, k); }
  }

  /** What the constructor of a counterpart for n may return: a new Java object, or one that exists already, but no
      PyCPeer. */
  predicate Yields(s: State, n: NId, next: JId) {
    n in s.natives && (next !in s.used || (s.natives[n].typed && next in s.alive && next !in s.peers))
  }

  /** JyNI_JythonPyObject_FromPyObject without the conversions of other objects it may cause; `next`: what the
      constructor returns if it is called. */
  ghost function ToJava(s: State, n: NId, next: JId): (State, JId)
    requires Yields(s, n, next) && s.natives[n].refs > s.natives[n].peerRefs && (Unchecked(s, n) ==> Hit(s, n))
  {
    if Hit(s, n) then (s, s.natives[n].jy.j)
    else if next !in s.used then (Step(Step(s, BeginJava(n)), EndJava(n, next)), next)
    else (Step(Step(s, BeginJava(n)), ShareJava(n, next)), next)
  }

  /** A header marked as eternal leads to a preallocated Java object, which is alive: no dead reference is returned. */
  lemma UncheckedLives(s: State, n: NId)
    requires Good(s) && Unchecked(s, n)
    ensures Hit(s, n)
  {
    assert GoodNative(s, n);
  }

  /** No conversion uses n, and native code that asks for its counterpart owns a reference to it. */
  ghost predicate Idle(s: State, n: NId) {
    n in s.natives && n !in s.early && n !in s.toJava && s.natives[n].refs > s.natives[n].peerRefs
  }

  lemma BeginJavaLeaves(s: State, n: NId)
    requires Good(s) && Idle(s, n) && !Hit(s, n)
    ensures var s' := Step(s, BeginJava(n));
            && n in s'.natives && {Initialized, HasHandle} !! s'.natives[n].flags && n in s'.toJava
            && !s'.natives[n].jy.WeakTo?
            && s'.used == s.used && s'.handle == s.handle && s'.natives == s.natives[n := s'.natives[n]]
            && s'.natives[n].typed == s.natives[n].typed && s'.alive == s.alive
            && (s.natives[n].jy.WeakTo? ==> s'.natives[n].flags == {} && s.natives[n].jy.j in s.used)
  {
    assert GoodNative(s, n);
  }

  lemma EndJavaMirrors(s: State, n: NId, j: JId)
    requires Enabled(s, EndJava(n, j))
    ensures var s' := Step(s, EndJava(n, j)); Mirrored(s', n, j) && j in s'.alive
    ensures HasHandle !in s.natives[n].flags ==>
              Step(s, EndJava(n, j)).handle == s.handle[j := n]
              && (s.natives[n].typed ==> Step(s, EndJava(n, j)).natives[n].flags == s.natives[n].flags + {Initialized, HasHandle})
    ensures forall m :: m in s.natives && m != n ==> m in Step(s, EndJava(n, j)).natives && Step(s, EndJava(n, j)).natives[m] == s.natives[m]
  {
  }

  lemma ShareJavaMirrors(s: State, n: NId, j: JId)
    requires Enabled(s, ShareJava(n, j))
    ensures var s' := Step(s, ShareJava(n, j));
            && Mirrored(s', n, j) && s'.alive == s.alive && s'.peers == s.peers
            && s'.natives == s.natives[n := s'.natives[n]]
            && s'.natives[n].flags == s.natives[n].flags + {Initialized, HasHandle}
            && (HasHandle !in s.natives[n].flags ==> s'.handle == s.handle[j := n])
  {
  }

  /** What is returned is alive and the counterpart, and the handle leads back; the mirror relation is kept exactly if
      no constructor returned an object that has a native counterpart already. */
  lemma ToJavaGood(s: State, n: NId, next: JId)
    requires Good(s) && Idle(s, n) && Yields(s, n, next)
    ensures var (s', j) := ToJava(s, n, next);
            && Mirrored(s', n, j) && j in s'.alive && j in s'.handle && s'.handle[j] == n
            && (Good(s') <==> Hit(s, n) || next !in s.handle)
  {
    PartialBijection(s, n, if Hit(s, n) then s.natives[n].jy.j else 0);
    if !Hit(s, n) {
      var s1 := Step(s, BeginJava(n));
      BeginJavaLeaves(s, n);
      BenignKeepsGood(s, BeginJava(n));
      if next !in s.used {
        NoHandleUnused(s, next);
        hide Good; hide Step;
        BenignKeepsGood(s1, EndJava(n, next));
        EndJavaMirrors(s1, n, next);
      } else {
        hide Good; hide Step;
        ShareJavaIff(s1, n, next);
        ShareJavaMirrors(s1, n, next);
      }
    }
  }

  /** Conversion to Java takes no reference, but that a new peer owns one. */
  lemma ToJavaCounts(s: State, n: NId, next: JId, m: NId)
    requires Good(s) && Idle(s, n) && Yields(s, n, next) && m in s.natives
    ensures var s' := ToJava(s, n, next).0;
            && m in s'.natives
            && s'.natives[m].refs == s.natives[m].refs + if m == n && !Hit(s, n) && !s.natives[n].typed then 1 else 0
  {
    if !Hit(s, n) {
      var s1 := Step(s, BeginJava(n));
      BeginJavaLeaves(s, n);
      hide Good; hide Step;
      CountsFollow(s, BeginJava(n), m);
      EndCounts(s1, n, next, m);
    }
  }

  lemma EndCounts(s: State, n: NId, next: JId, m: NId)
    requires n in s.toJava && Yields(s, n, next) && m in s.natives
    ensures var a := if next !in s.used then EndJava(n, next) else ShareJava(n, next);
            && Enabled(s, a) && m in Step(s, a).natives
            && Step(s, a).natives[m].refs == s.natives[m].refs + if m == n && !s.natives[n].typed then 1 else 0
  {
    CountsFollow(s, if next !in s.used then EndJava(n, next) else ShareJava(n, next), m);
    hide Step;
  }

  /** Native to Java and back: the same native object, with one new reference. */
  lemma NativeJavaNative(s: State, n: NId, next: JId)
    requires Good(s) && Idle(s, n) && Yields(s, n, next)
    ensures var (s', j) := ToJava(s, n, next);
            && Enabled(s', Lookup(j)) && s'.handle[j] == n && n in s'.natives
            && Step(s', Lookup(j)) == TakeReference(s', n)
  {
    ToJavaGood(s, n, next);
    hide Good;
    hide ToJava;
  }

  lemma ToJavaInits(s: State, n: NId, next: JId)
    requires Yields(s, n, next) && s.natives[n].refs > s.natives[n].peerRefs && !Hit(s, n) && !Unchecked(s, n)
    ensures n in ToJava(s, n, next).0.natives && Initialized in ToJava(s, n, next).0.natives[n].flags
  {
    var s1 := Step(s, BeginJava(n));
    if next !in s.used { EndJavaMirrors(s1, n, next); } else { ShareJavaMirrors(s1, n, next); }
  }

  /** Java to native and back: the same Java object, alive and nothing changed, unless the native one is half-built. */
  lemma JavaNativeJava(s: State, j: JId, next: JId)
    requires Good(s) && Enabled(s, Lookup(j)) && Yields(s, s.handle[j], next)
    ensures var s' := Step(s, Lookup(j)); var n := s.handle[j];
            (ToJava(s', n, next) == (s', j) && j in s'.alive) <==> n !in s.early
  {
    var n := s.handle[j];
    PartialBijection(s, n, j);
    assert GoodNative(s, n);
    if n in s.early {
      assert GoodEarly(s, n);
      assert Initialized !in Step(s, Lookup(j)).natives[n].flags;
      ToJavaInits(TakeReference(s, n), n, next);
    }
    hide Good; hide GoodNative; hide Yields;
  }

  /** In any state, good or not, in which the handle leads to an object: the way back leads to j exactly if its header
      does, or the constructor returns j. */
  lemma JavaNativeJavaIff(s: State, j: JId, next: JId)
    requires Enabled(s, Lookup(j)) && Exists(s, j) && Yields(s, s.handle[j], next)
    requires s.natives[s.handle[j]].refs >= s.natives[s.handle[j]].peerRefs
    requires Unchecked(s, s.handle[j]) ==> Hit(s, s.handle[j])
    ensures ToJava(Step(s, Lookup(j)), s.handle[j], next).1 == j <==>
              Mirrored(s, s.handle[j], j) || (next == j && !Hit(s, s.handle[j]))
  {
  }

  /** A dead counterpart is replaced, and no flag but the two set anew survives: an object allocated as a truncated or
      garbage-collected one is no longer marked as such. */
  lemma DeadReplaced(s: State, n: NId, next: JId)
    requires Good(s) && Idle(s, n) && Yields(s, n, next)
    requires s.natives[n].typed && s.natives[n].jy.WeakTo? && s.natives[n].jy.j !in s.alive
    ensures var (s', j) := ToJava(s, n, next);
            && j == next != s.natives[n].jy.j && Mirrored(s', n, next)
            && s'.natives[n].flags == {Initialized, HasHandle} && s'.handle == s.handle[next := n]
            && (forall m :: m in s.natives && m != n ==> m in s'.natives && s'.natives[m] == s.natives[m])
  {
    assert GoodNative(s, n);
    hide Good;
    hide CleanUp;
    hide MissJava;
    BeginJavaLeaves(s, n);
    var s1 := Step(s, BeginJava(n));
    hide Step;
    if next !in s.used { EndJavaMirrors(s1, n, next); } else { ShareJavaMirrors(s1, n, next); }
  }

  // ----- what goes wrong otherwise

  /** A second native object takes the handle; the first still leads to j. */
  lemma EndLateAgain(s: State, j: JId, n: NId, m: NId, flags: set<Flag>)
    requires Mirrored(s, n, j) && Enabled(s, EndLate(j, m, flags)) && n != m
    ensures var s' := Step(s, EndLate(j, m, flags));
            Mirrored(s', n, j) && Mirrored(s', m, j) && j in s'.handle && s'.handle[j] == m
  {
    EndLateEffect(s, j, m, flags);
    hide Step;
  }

  lemma EndLateEffect(s: State, j: JId, n: NId, flags: set<Flag>)
    requires Enabled(s, EndLate(j, n, flags)) && j in s.alive
    ensures var s' := Step(s, EndLate(j, n, flags));
            && n in s'.natives && s'.natives == s.natives[n := s'.natives[n]] && s'.handle == s.handle[j := n]
            && s'.late == s.late - multiset{j} && s'.alive == s.alive && Mirrored(s', n, j)
  {
  }

  /** A constructor returns a Java object that another native object is mirrored by: both lead to it, it leads to the
      newer one. */
  lemma SharedJavaObject(s: State, n: NId, next: JId)
    requires Good(s) && Idle(s, n) && Yields(s, n, next) && !Hit(s, n) && next in s.handle && s.handle[next] !in s.early
    ensures var m := s.handle[next]; var (s', j) := ToJava(s, n, next);
            m != n && j == next && Mirrored(s', n, j) && Mirrored(s', m, j) && j in s'.handle && s'.handle[j] == n
  {
    var m := s.handle[next];
    assert GoodHandle(s, next) && GoodNative(s, n);
    PartialBijection(s, m, next);
    BeginJavaLeaves(s, n);
    var s1 := Step(s, BeginJava(n));
    assert next in s.used;
    hide Good; hide Step;
    ShareJavaMirrors(s1, n, next);
  }

  /** Two conversions of one object that registers last: both native objects lead to it, it leads to the second. */
  lemma LateReentered(s: State, j: JId, n: NId, m: NId, flags: set<Flag>)
    requires Good(s) && s.late[j] >= 2 && j !in s.handle && Fresh(s, n, flags) && Fresh(s, m, flags) && n != m
    ensures var s1 := Step(s, EndLate(j, n, flags));
            && Enabled(s1, EndLate(j, m, flags))
            && var s2 := Step(s1, EndLate(j, m, flags));
               Mirrored(s2, n, j) && Mirrored(s2, m, j) && j in s2.handle && s2.handle[j] == m
  {
    assert j in s.late && j in s.alive;
    EndLateEffect(s, j, n, flags);
    hide Good;
    hide Step;
    hide Mirrored;
    EndLateAgain(Step(s, EndLate(j, n, flags)), j, n, m, flags);
  }

  /** A half-built object converted to Java: in the end it leads to the object it was made for, and the Java object
      it yielded meanwhile lives on without a handle. */
  lemma HalfBuiltConverted(s: State, n: NId, next: JId)
    requires Good(s) && n in s.early && n !in s.toJava && next !in s.used
    ensures n in s.natives && Enabled(s, BeginJava(n))
    ensures var s1 := Step(s, BeginJava(n));
            && Enabled(s1, EndJava(n, next))
            && var s2 := Step(s1, EndJava(n, next));
               && Enabled(s2, EndEarly(n))
               && var s3 := Step(s2, EndEarly(n));
                  Mirrored(s3, n, s.early[n]) && next in s3.alive && next !in s3.handle
  {
    assert GoodEarly(s, n) && GoodNative(s, n) && GoodHandle(s, s.early[n]);
    NoHandleUnused(s, next);
  }
}
