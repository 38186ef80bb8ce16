/** What holds in every state that any run reaches, however badly conversions interfere: the objects of conversions under
    way and of peers exist, and references are counted. From this follows when a dead reference is returned. */
module MirrorReach {
  import opened Basics
  import opened Mirror
  import opened MirrorRuns

  ghost function PeersOf(s: State, n: NId): set<JId> { set j | j in s.peers && j in s.handle && s.handle[j] == n }

  /** The count covers the peers and the conversions that rely on the object. */
  ghost predicate SteadyNative(s: State, n: NId)
    requires n in s.natives
  {
    var h := s.natives[n];
    && h.refs >= 1 && h.refs >= h.peerRefs + InUse(s, n) && h.peerRefs == |PeersOf(s, n)|
    && (!h.typed ==> {HasHandle, Eternal} !! h.flags && n !in s.early)
    && (h.jy.WeakTo? ==> h.jy.j in s.used && (h.typed ==> h.jy.j !in s.peers))
  }

  ghost predicate SteadyPeer(s: State, j: JId) {
    && j in s.alive && Exists(s, j) && !s.natives[s.handle[j]].typed
    && j !in s.late && j !in s.early.Values && j !in s.pinned
  }

  ghost predicate SteadyPending(s: State) {
    && (forall n :: n in s.early ==> n in s.natives && s.early[n] in s.alive)
    && (forall j :: j in s.late ==> j in s.alive)
    && (forall n :: n in s.toJava ==> n in s.natives)
  }

  ghost predicate Steady(s: State) {
    && JavaSteady(s) && SteadyPending(s)
    && (forall n :: n in s.natives ==> SteadyNative(s, n))
    && (forall j :: j in s.peers ==> SteadyPeer(s, j))
  }

  // ----- every step keeps it

  ghost predicate PeersKept(s: State, s': State) {
    s'.peers == s.peers && forall j :: j in s.peers ==> PeerKept(s, s', j)
  }

  predicate PeerKept(s: State, s': State, j: JId) {
    && j in s.handle && j in s'.handle && s'.handle[j] == s.handle[j] && j in s'.alive
    && j !in s'.late && j !in s'.early.Values && j !in s'.pinned
  }

  ghost predicate HeadersKept(s: State, s': State, changed: set<NId>) {
    && (forall m :: m in s'.natives && m !in changed ==> HeaderKept(s, s', m))
    && (forall m :: m in s.natives && m !in changed ==> m in s'.natives)
  }

  predicate HeaderKept(s: State, s': State, m: NId) {
    && m in s.natives && m in s'.natives && s'.natives[m] == s.natives[m]
    && InUse(s', m) <= InUse(s, m) && (m in s'.early ==> m in s.early)
  }

  ghost predicate JavaSteady(s: State) { s.pinned <= s.alive <= s.used && s.handle.Keys <= s.alive }

  /** Only the native objects that the step changes need checking. */
  ghost predicate Changes(s: State, s': State, changed: set<NId>) {
    s.used <= s'.used && JavaSteady(s') && SteadyPending(s') && PeersKept(s, s') && HeadersKept(s, s', changed)
  }

  lemma ChangesSteady(s: State, s': State, changed: set<NId>)
    requires Steady(s) && Changes(s, s', changed)
    requires forall n :: n in changed && n in s'.natives ==> SteadyNative(s', n)
    requires forall n :: n in changed && PeersOf(s, n) != {} ==> n in s'.natives && !s'.natives[n].typed
    ensures Steady(s')
  {
    forall m | m in s'.natives ensures SteadyNative(s', m) {
      if m !in changed {
        assert SteadyNative(s, m) && HeaderKept(s, s', m);
        assert forall j :: j in s.peers ==> PeerKept(s, s', j);
        assert PeersOf(s', m) == PeersOf(s, m);
      }
    }
    forall j | j in s'.peers ensures SteadyPeer(s', j) {
      assert SteadyPeer(s, j) && PeerKept(s, s', j) && j in PeersOf(s, s.handle[j]);
    }
  }

  lemma NoPeerOf(s: State, n: NId)
    requires Steady(s) && (n in s.natives ==> s.natives[n].typed)
    ensures PeersOf(s, n) == {} && |PeersOf(s, n)| == 0 && forall j :: j in s.peers ==> s.handle[j] != n
  {
    forall j | j in s.peers ensures j in s.handle && s.handle[j] != n { assert SteadyPeer(s, j); }
  }

  lemma PeersExist(s: State)
    requires Steady(s)
    ensures s.peers <= s.alive && forall j :: j in s.peers ==> Exists(s, j)
    ensures forall j :: j in s.peers ==> j !in s.late && j !in s.early.Values && j !in s.pinned
    ensures JavaSteady(s) && SteadyPending(s)
  {
    forall j | j in s.peers
      ensures j in s.alive && Exists(s, j) && j !in s.late && j !in s.early.Values && j !in s.pinned
    {
      assert SteadyPeer(s, j);
    }
  }

  /** A typed object is new or changes. */
  /** What keeps the peers, besides their handles. */
  lemma KeptPeers(s: State, s': State)
    requires Steady(s) && s'.peers == s.peers && s.alive <= s'.alive && s'.pinned <= s.pinned
    requires forall j :: j in s.peers ==> j in s'.handle && j in s.handle && s'.handle[j] == s.handle[j]
    requires forall j :: j in s'.late || j in s'.early.Values ==> j in s.late || j in s.early.Values || j !in s.handle
    ensures PeersKept(s, s')
  {
    PeersExist(s);
    forall j | j in s.peers ensures PeerKept(s, s', j) { }
  }

  lemma KeptPeersLess(s: State, s': State)
    requires Steady(s) && s'.peers == s.peers && s.alive == s'.alive && s'.pinned == s.pinned
    requires s'.late <= s.late && s'.early == s.early && s'.handle == s.handle
    ensures PeersKept(s, s')
  {
    PeersExist(s);
    hide Steady;
    KeptPeers(s, s');
  }

  lemma TypedSteady(s: State, s': State, n: NId)
    requires Steady(s) && Changes(s, s', {n}) && (n in s.natives ==> s.natives[n].typed) && n in s'.natives
    requires var h := s'.natives[n];
             && h.typed && h.refs >= 1 && h.refs >= InUse(s', n) && h.peerRefs == 0
             && (h.jy.WeakTo? ==> h.jy.j in s'.used && h.jy.j !in s.peers)
    ensures Steady(s')
  {
    PeersExist(s);
    NoPeerOf(s, n);
    assert PeersOf(s', n) == {};
    hide Steady; hide SteadyPeer;
    ChangesSteady(s, s', {n});
  }

  /** An object keeps its type, its peers and what it leads to, or leads nowhere. */
  lemma HeaderSteady(s: State, s': State, n: NId)
    requires Steady(s) && Changes(s, s', {n}) && n in s.natives && n in s'.natives
    requires var h, h' := s.natives[n], s'.natives[n];
             && h'.typed == h.typed && h'.peerRefs == h.peerRefs && h'.refs >= 1 && h'.refs >= h'.peerRefs + InUse(s', n)
             && h'.flags <= h.flags && (h'.jy == h.jy || !h'.jy.WeakTo?) && (n in s'.early ==> n in s.early)
    ensures Steady(s')
  {
    PeersExist(s);
    assert SteadyNative(s, n) && PeersOf(s', n) == PeersOf(s, n);
    if s.natives[n].typed { NoPeerOf(s, n); }
    hide Steady; hide SteadyPeer;
    ChangesSteady(s, s', {n});
  }

  lemma NewNativeSteady(s: State, n: NId, flags: set<Flag>, entry: bool, typed: bool)
    requires Steady(s) && Enabled(s, NewNative(n, flags, entry, typed))
    ensures Steady(Step(s, NewNative(n, flags, entry, typed)))
  {
    var s' := Step(s, NewNative(n, flags, entry, typed));
    PeersExist(s);
    NoPeerOf(s, n);
    assert PeersOf(s', n) == {} && n !in s.early && n !in s.toJava;
    hide Steady; hide SteadyPeer;
    ChangesSteady(s, s', {n});
  }

  lemma QuietSteady(s: State, a: Action)
    requires Steady(s) && Enabled(s, a) && (a.NewJava? || a.BeginLate? || a.Collect? || (a.Lookup? && !Exists(s, a.j)))
    ensures Steady(Step(s, a))
  {
    PeersExist(s);
    QuietPeers(s, a);
    QuietRest(s, a);
    hide Steady; hide PeersKept; hide HeadersKept; hide SteadyPending; hide JavaSteady; hide Step;
    ChangesSteady(s, Step(s, a), {});
  }

  lemma QuietPeers(s: State, a: Action)
    requires Steady(s) && Enabled(s, a) && (a.NewJava? || a.BeginLate? || a.Collect? || (a.Lookup? && !Exists(s, a.j)))
    ensures PeersKept(s, Step(s, a))
  {
    PeersExist(s);
    hide Steady;
    forall k | k in s.peers ensures PeerKept(s, Step(s, a), k) { assert Exists(s, k) && k in s.alive; }
  }

  lemma QuietRest(s: State, a: Action)
    requires JavaSteady(s) && SteadyPending(s)
    requires Enabled(s, a) && (a.NewJava? || a.BeginLate? || a.Collect? || (a.Lookup? && !Exists(s, a.j)))
    ensures var s' := Step(s, a);
            JavaSteady(s') && SteadyPending(s') && s.used <= s'.used && s'.natives == s.natives && HeadersKept(s, s', {})
  {
    forall m | m in s.natives ensures HeaderKept(s, Step(s, a), m) { }
  }

  lemma TakeSteady(s: State, n: NId)
    requires Steady(s) && n in s.natives
    ensures Steady(TakeReference(s, n))
  {
    PeersExist(s);
    assert SteadyNative(s, n);
    hide Steady; hide SteadyPeer;
    hide PeersOf;
    HeaderSteady(s, TakeReference(s, n), n);
  }

  lemma BegunPeers(s: State, j: JId, n: NId, flags: set<Flag>)
    requires Steady(s) && Enabled(s, BeginEarly(j, n, flags))
    ensures PeersKept(s, Step(s, BeginEarly(j, n, flags)))
  {
    PeersExist(s);
    hide Steady; hide SteadyPending; hide PeersKept;
    KeptPeers(s, Step(s, BeginEarly(j, n, flags)));
  }

  lemma BegunPending(s: State, j: JId, n: NId, flags: set<Flag>)
    requires SteadyPending(s) && JavaSteady(s) && Enabled(s, BeginEarly(j, n, flags))
    ensures var s' := Step(s, BeginEarly(j, n, flags)); SteadyPending(s') && JavaSteady(s')
    ensures n !in s.early && n !in s.toJava
  {
  }

  lemma BeginEarlySteady(s: State, j: JId, n: NId, flags: set<Flag>)
    requires Steady(s) && Enabled(s, BeginEarly(j, n, flags))
    ensures Steady(Step(s, BeginEarly(j, n, flags)))
  {
    var s' := Step(s, BeginEarly(j, n, flags));
    PeersExist(s);
    BegunPending(s, j, n, flags);
    BegunPeers(s, j, n, flags);
    hide Steady; hide PeersKept; hide SteadyPending; hide PeersOf; hide JavaSteady;
    forall m | m in s'.natives && m != n ensures HeaderKept(s, s', m) { }
    TypedSteady(s, s', n);
  }

  /** INIT_JY of a typed object, perhaps a new one. */
  lemma InitSteady(s: State, s0: State, j: JId, n: NId)
    requires Steady(s) && Changes(s, s0, {n}) && (n in s.natives ==> s.natives[n].typed) && n in s0.natives
    requires var h := s0.natives[n]; h.typed && h.refs >= 1 && h.refs >= InUse(s0, n) && h.peerRefs == 0
    requires j in s0.alive && j !in s.peers
    ensures Steady(InitJy(s0, j, n))
  {
    var s' := InitJy(s0, j, n);
    InitPeersKept(s, s0, j, n);
    InitHeadersKept(s, s0, j, n);
    InitRest(s0, j, n);
    hide PeersKept; hide HeadersKept; hide SteadyPending; hide Steady;
    TypedSteady(s, s', n);
  }

  lemma InitPeersKept(s: State, s0: State, j: JId, n: NId)
    requires PeersKept(s, s0) && n in s0.natives && j !in s.peers
    ensures PeersKept(s, InitJy(s0, j, n))
  {
    forall k | k in s.peers ensures PeerKept(s, InitJy(s0, j, n), k) { assert PeerKept(s, s0, k); }
  }

  lemma InitHeadersKept(s: State, s0: State, j: JId, n: NId)
    requires HeadersKept(s, s0, {n}) && n in s0.natives
    ensures HeadersKept(s, InitJy(s0, j, n), {n})
  {
    var s' := InitJy(s0, j, n);
    forall m | m in s'.natives && m != n ensures HeaderKept(s, s', m) { assert HeaderKept(s, s0, m); }
  }

  lemma InitRest(s0: State, j: JId, n: NId)
    requires JavaSteady(s0) && SteadyPending(s0) && n in s0.natives && j in s0.alive
    ensures JavaSteady(InitJy(s0, j, n)) && SteadyPending(InitJy(s0, j, n))
  {
  }

  lemma EndEarlySteady(s: State, n: NId)
    requires Steady(s) && Enabled(s, EndEarly(n))
    ensures Steady(Step(s, EndEarly(n)))
  {
    PeersExist(s);
    assert SteadyNative(s, n);
    NoPeerOf(s, n);
    assert s.early[n] in s.early.Values;
    hide Steady; hide SteadyPeer;
    hide PeersOf;
    InitSteady(s, s.(early := s.early - {n}), s.early[n], n);
  }

  lemma FewerUnderWay(s: State, s0: State)
    requires SteadyPending(s) && JavaSteady(s) && s.natives.Keys <= s0.natives.Keys && s0.handle.Keys <= s.alive
    requires s0.early == s.early && s0.late <= s.late && s0.toJava <= s.toJava
    requires s0.alive == s.alive && s0.used == s.used && s0.pinned == s.pinned
    ensures SteadyPending(s0) && JavaSteady(s0)
  {
  }

  /** A late object that was created and not yet initialised. */
  function LateStart(s: State, j: JId, n: NId, flags: set<Flag>): State {
    s.(natives := s.natives[n := Header(flags + Marks(s, j), TypeEntry, true, 1, 0)], late := s.late - multiset{j})
  }

  lemma LateStartHeaders(s: State, j: JId, n: NId, flags: set<Flag>)
    requires n !in s.natives
    ensures HeadersKept(s, LateStart(s, j, n, flags), {n})
  {
    var s0 := LateStart(s, j, n, flags);
    forall m | m in s0.natives && m != n ensures HeaderKept(s, s0, m) { }
  }

  lemma PendingOrPeer(s: State, j: JId)
    requires Steady(s) && j in s.late
    ensures j in s.alive && j !in s.peers
  {
    PeersExist(s);
  }

  lemma LateStartChanges(s: State, j: JId, n: NId, flags: set<Flag>)
    requires Steady(s) && Enabled(s, EndLate(j, n, flags))
    ensures Changes(s, LateStart(s, j, n, flags), {n}) && InUse(LateStart(s, j, n, flags), n) == 0
    ensures j in s.alive && j !in s.peers
  {
    PeersExist(s);
    var s0 := LateStart(s, j, n, flags);
    assert s0.late <= s.late && j in s.late;
    Unused(s, n);
    PendingOrPeer(s, j);
    hide Steady;
    KeptPeersLess(s, s0);
    FewerUnderWay(s, s0);
    hide SteadyPending; hide JavaSteady; hide PeersKept;
    LateStartHeaders(s, j, n, flags);
    hide LateStart; hide HeadersKept;
  }

  lemma Unused(s: State, n: NId)
    requires SteadyPending(s) && n !in s.natives
    ensures n !in s.early && n !in s.toJava
  {
  }

  lemma EndLateSteady(s: State, j: JId, n: NId, flags: set<Flag>)
    requires Steady(s) && Enabled(s, EndLate(j, n, flags))
    ensures Steady(Step(s, EndLate(j, n, flags)))
  {
    LateStartChanges(s, j, n, flags);
    hide Steady; hide InitJy; hide Changes;
    InitSteady(s, LateStart(s, j, n, flags), j, n);
  }

  lemma ShareSteady(s: State, a: Action, j: JId, n: NId)
    requires Steady(s) && Enabled(s, a) && a in {ShareTuple(j, n), ShareLate(j, n), ShareJava(n, j)}
    ensures Steady(Step(s, a))
  {
    hide Steady; hide InitJy;
    if a.ShareTuple? { ShareTupleSteady(s, j, n); }
    else if a.ShareLate? { ShareLateSteady(s, j, n); }
    else { ShareJavaSteady(s, n, j); }
  }

  /** A typed object and what INIT_JY is about to find. */
  lemma TypedFacts(s: State, n: NId)
    requires Steady(s) && n in s.natives && s.natives[n].typed
    ensures var h := s.natives[n]; h.refs >= 1 && h.refs >= InUse(s, n) && h.peerRefs == 0
  {
    assert SteadyNative(s, n);
    NoPeerOf(s, n);
  }

  lemma ChangedHeaders(s: State, s0: State, n: NId)
    requires n in s.natives && n in s0.natives && s0.natives == s.natives[n := s0.natives[n]]
    requires s0.early == s.early && s0.toJava <= s.toJava
    ensures HeadersKept(s, s0, {n})
  {
    forall m | m in s0.natives && m != n ensures HeaderKept(s, s0, m) { }
  }

  lemma ShareTupleSteady(s: State, j: JId, n: NId)
    requires Steady(s) && Enabled(s, ShareTuple(j, n))
    ensures Steady(Step(s, ShareTuple(j, n)))
  {
    PeersExist(s);
    TypedFacts(s, n);
    var s0 := Register(TakeReference(s, n), j, n);
    KeptPeers(s, s0);
    FewerUnderWay(s, s0);
    hide SteadyPending; hide JavaSteady;
    hide Steady; hide InitJy; hide PeersKept;
    forall m | m in s0.natives && m != n ensures HeaderKept(s, s0, m) { }
    InitSteady(s, s0, j, n);
  }

  /** A shared object that a late object is about to take over. */
  function ShareStart(s: State, j: JId, n: NId): State
    requires n in s.natives
  {
    Marked(TakeReference(s, n), n, Marks(s, j)).(late := s.late - multiset{j})
  }

  lemma ShareStartSame(s: State, j: JId, n: NId)
    requires n in s.natives
    ensures var s0 := ShareStart(s, j, n);
            && n in s0.natives && s0 == s.(natives := s.natives[n := s0.natives[n]], late := s0.late) && s0.late <= s.late
  {
  }

  lemma ShareStartChanges(s: State, j: JId, n: NId)
    requires Steady(s) && Enabled(s, ShareLate(j, n))
    ensures Changes(s, ShareStart(s, j, n), {n}) && j in s.alive && j !in s.peers
  {
    PeersExist(s);
    PendingOrPeer(s, j);
    var s0 := ShareStart(s, j, n);
    ShareStartSame(s, j, n);
    hide Steady; hide ShareStart; hide Enabled;
    KeptPeersLess(s, s0);
    FewerUnderWay(s, s0);
    hide SteadyPending; hide JavaSteady; hide PeersKept;
    ChangedHeaders(s, s0, n);
    hide HeadersKept;
  }

  lemma ShareLateSteady(s: State, j: JId, n: NId)
    requires Steady(s) && Enabled(s, ShareLate(j, n))
    ensures Steady(Step(s, ShareLate(j, n)))
  {
    TypedFacts(s, n);
    ShareStartChanges(s, j, n);
    hide Steady; hide InitJy; hide Changes;
    InitSteady(s, ShareStart(s, j, n), j, n);
  }

  lemma ShareJavaSteady(s: State, n: NId, j: JId)
    requires Steady(s) && Enabled(s, ShareJava(n, j))
    ensures Steady(Step(s, ShareJava(n, j)))
  {
    PeersExist(s);
    TypedFacts(s, n);
    var s0 := s.(toJava := s.toJava - multiset{n});
    KeptPeers(s, s0);
    FewerUnderWay(s, s0);
    hide SteadyPending; hide JavaSteady;
    hide Steady; hide InitJy; hide PeersKept;
    forall m | m in s0.natives && m != n ensures HeaderKept(s, s0, m) { }
    InitSteady(s, s0, j, n);
  }

  /** Clean-up takes no handle from a peer. */
  lemma CleanUpLeaves(s: State, n: NId)
    requires n in s.natives && SteadyNative(s, n)
    ensures var s' := CleanUp(s, n);
            && s' == s.(natives := s'.natives, handle := s'.handle, fault := s'.fault)
            && s'.natives == s.natives[n := s'.natives[n]] && s'.handle.Keys <= s.handle.Keys
            && (forall j :: j in s.peers && j in s.handle ==> j in s'.handle && s'.handle[j] == s.handle[j])
            && var (h, h') := (s.natives[n], s'.natives[n]);
               && h' == h.(flags := h'.flags, jy := h'.jy) && h'.flags <= h.flags && (h'.jy == h.jy || h'.jy == NoRef)
  {
  }

  lemma MissLeaves(s: State, n: NId)
    requires Enabled(s, BeginJava(n)) && SteadyNative(s, n)
    ensures var (s', z) := (Step(s, BeginJava(n)), CleanUp(s, n));
            && s' == s.(natives := s'.natives, handle := s'.handle, fault := s'.fault, toJava := s.toJava + multiset{n})
            && (s'.natives, s'.handle) == if Initialized in s.natives[n].flags then (z.natives, z.handle) else (s.natives, s.handle)
  {
    CleanUpLeaves(s, n);
    hide CleanUp;
  }

  lemma BeginJavaSteady(s: State, n: NId)
    requires Steady(s) && Enabled(s, BeginJava(n))
    ensures Steady(Step(s, BeginJava(n)))
  {
    PeersExist(s);
    assert SteadyNative(s, n);
    CleanUpLeaves(s, n);
    var s' := Step(s, BeginJava(n));
    MissLeaves(s, n);
    hide CleanUp; hide Step;
    KeptPeers(s, s');
    hide Steady; hide PeersKept; hide PeersOf;
    forall m | m in s'.natives && m != n ensures HeaderKept(s, s', m) { }
    HeaderSteady(s, s', n);
  }

  lemma EndTypedSteady(s: State, n: NId, j: JId)
    requires Steady(s) && Enabled(s, EndJava(n, j)) && s.natives[n].typed
    ensures Steady(Step(s, EndJava(n, j)))
  {
    PeersExist(s);
    assert SteadyNative(s, n);
    NoPeerOf(s, n);
    hide Steady; hide SteadyPeer;
    hide PeersOf;
    InitSteady(s, s.(alive := s.alive + {j}, used := s.used + {j}, toJava := s.toJava - multiset{n}), j, n);
  }

  lemma EndPeerSteady(s: State, n: NId, j: JId)
    requires Steady(s) && Enabled(s, EndJava(n, j)) && !s.natives[n].typed
    ensures Steady(Step(s, EndJava(n, j)))
  {
    var s' := Step(s, EndJava(n, j));
    PeersExist(s);
    NewPeerEffect(s, n, j);
    hide Step;
    forall m | m in s'.natives ensures SteadyNative(s', m) { NewPeerNative(s, s', n, j, m); }
    hide SteadyNative;
    forall k | k in s'.peers ensures SteadyPeer(s', k) { NewPeerPeer(s, s', n, j, k); }
    hide SteadyPeer;
  }

  lemma NewPeerEffect(s: State, n: NId, j: JId)
    requires Enabled(s, EndJava(n, j)) && !s.natives[n].typed
    ensures var h := s.natives[n];
            Step(s, EndJava(n, j))
            == s.(natives := s.natives[n := h.(jy := WeakTo(j), flags := h.flags + {Initialized, CPeer}, refs := h.refs + 1,
                                               peerRefs := h.peerRefs + 1)],
                  alive := s.alive + {j}, used := s.used + {j}, handle := s.handle[j := n], peers := s.peers + {j},
                  toJava := s.toJava - multiset{n})
  {
  }

  lemma NewPeerPeer(s: State, s': State, n: NId, j: JId, k: JId)
    requires Steady(s) && n in s.natives && !s.natives[n].typed && j !in s.used && k in s.peers + {j}
    requires n in s'.natives && s'.natives.Keys == s.natives.Keys && s'.natives == s.natives[n := s'.natives[n]]
    requires !s'.natives[n].typed && s'.alive == s.alive + {j} && s'.handle == s.handle[j := n]
    requires s'.late == s.late && s'.early == s.early && s'.pinned == s.pinned
    ensures SteadyPeer(s', k)
  {
    PeersExist(s);
    if k != j { assert SteadyPeer(s, k); }
    hide Steady;
  }

  lemma NewPeerCounts(s: State, s': State, n: NId, j: JId, m: NId)
    requires s'.handle == s.handle[j := n] && s'.peers == s.peers + {j} && j !in s.peers
    ensures |PeersOf(s', m)| == |PeersOf(s, m)| + if m == n then 1 else 0
  {
    if m == n { assert PeersOf(s', n) == PeersOf(s, n) + {j}; } else { assert PeersOf(s', m) == PeersOf(s, m); }
  }

  lemma NewPeerNative(s: State, s': State, n: NId, j: JId, m: NId)
    requires Steady(s) && n in s.natives && !s.natives[n].typed && j !in s.used && m in s.natives
    requires var h := s.natives[n];
             s' == s.(natives := s.natives[n := h.(jy := WeakTo(j), flags := h.flags + {Initialized, CPeer}, refs := h.refs + 1,
                                                   peerRefs := h.peerRefs + 1)],
                      alive := s.alive + {j}, used := s.used + {j}, handle := s.handle[j := n], peers := s.peers + {j},
                      toJava := s.toJava - multiset{n})
    ensures SteadyNative(s', m)
  {
    PeersExist(s);
    assert SteadyNative(s, m) && j !in s.handle && j !in s.peers;
    hide Steady; hide SteadyPeer;
    NewPeerCounts(s, s', n, j, m);
    hide PeersOf;
  }

  lemma DecrefSteady(s: State, n: NId)
    requires Steady(s) && Enabled(s, Decref(n))
    ensures Steady(Step(s, Decref(n)))
  {
    if s.natives[n].refs == 1 { FreeSteady(s, n); } else { LessSteady(s, n); }
  }

  lemma LessSteady(s: State, n: NId)
    requires Steady(s) && Enabled(s, Decref(n)) && s.natives[n].refs != 1
    ensures Steady(Step(s, Decref(n)))
  {
    PeersExist(s);
    assert SteadyNative(s, n);
    var s' := Step(s, Decref(n));
    KeptPeers(s, s');
    PendingSame(s, s');
    hide Steady; hide PeersOf; hide SteadyPending; hide CleanUp; hide PeersKept;
    forall m | m in s'.natives && m != n ensures HeaderKept(s, s', m) { }
    HeaderSteady(s, s', n);
  }

  lemma PendingSame(s: State, s': State)
    requires SteadyPending(s) && s'.early == s.early && s'.late == s.late && s'.toJava == s.toJava && s'.alive == s.alive
    requires s.natives.Keys <= s'.natives.Keys
    ensures SteadyPending(s')
  {
  }

  lemma FreeEffect(s: State, n: NId)
    requires Enabled(s, Decref(n)) && s.natives[n].refs == 1 && SteadyNative(s, n)
    ensures var s' := Step(s, Decref(n));
            s' == s.(natives := s.natives - {n}, handle := CleanUp(s, n).handle, fault := s'.fault)
    ensures n !in s.early && n !in s.toJava
  {
    CleanUpLeaves(s, n);
    hide CleanUp;
    assert Step(s, Decref(n)).natives == s.natives - {n};
  }

  lemma FreePeers(s: State, n: NId)
    requires Steady(s) && Enabled(s, Decref(n)) && s.natives[n].refs == 1
    ensures PeersKept(s, Step(s, Decref(n)))
  {
    PeersExist(s);
    assert SteadyNative(s, n);
    CleanUpLeaves(s, n);
    FreeEffect(s, n);
    hide Step; hide CleanUp; hide Steady; hide SteadyPending;
    KeptPeers(s, Step(s, Decref(n)));
  }

  lemma FreeSteady(s: State, n: NId)
    requires Steady(s) && Enabled(s, Decref(n)) && s.natives[n].refs == 1
    ensures Steady(Step(s, Decref(n)))
  {
    PeersExist(s);
    assert SteadyNative(s, n);
    assert PeersOf(s, n) == {};
    CleanUpLeaves(s, n);
    FreeEffect(s, n);
    FreePeers(s, n);
    var s' := Step(s, Decref(n));
    hide Step; hide CleanUp; hide Steady; hide PeersKept; hide PeersOf; hide SteadyNative;
    forall m | m in s'.natives ensures HeaderKept(s, s', m) { }
    ChangesSteady(s, s', {n});
  }

  /** What finalizing the peer j of n changes. */
  ghost predicate Finalized(s: State, s': State, j: JId) {
    && Exists(s, j)
    && s' == s.(natives := s'.natives, alive := s.alive - {j}, handle := s.handle - {j}, peers := s.peers - {j},
                fault := s'.fault, stale := s'.stale)
    && var n := s.handle[j]; var h := s.natives[n];
       s'.natives == if h.refs == 1 then s.natives - {n}
                     else s.natives[n := h.(jy := Deleted, refs := h.refs - 1, peerRefs := h.peerRefs - 1)]
  }

  lemma FinalizedNative(s: State, s': State, j: JId, m: NId)
    requires Steady(s) && j in s.peers && Finalized(s, s', j) && m in s'.natives
    ensures SteadyNative(s', m)
  {
    assert SteadyNative(s, m);
    assert j in PeersOf(s, s.handle[j]);
    if m == s.handle[j] { assert PeersOf(s', m) == PeersOf(s, m) - {j}; } else { assert PeersOf(s', m) == PeersOf(s, m); }
    hide Steady; hide PeersOf;
  }

  lemma FinalizedPeer(s: State, s': State, j: JId, k: JId)
    requires Steady(s) && j in s.peers && Finalized(s, s', j) && k in s'.peers
    ensures SteadyPeer(s', k)
  {
    var n := s.handle[j];
    assert SteadyPeer(s, k) && SteadyNative(s, n) && j in PeersOf(s, n);
    if s.natives[n].refs == 1 { OnlyOne(PeersOf(s, n), j); }
    assert s.handle[k] == n ==> k in PeersOf(s, n);
    hide Steady; hide PeersOf;
  }

  lemma FinalizedPending(s: State, j: JId)
    requires Steady(s) && Enabled(s, FinalizePeer(j)) && Finalized(s, Step(s, FinalizePeer(j)), j)
    ensures var s' := Step(s, FinalizePeer(j)); SteadyPending(s') && JavaSteady(s')
  {
    assert SteadyNative(s, s.handle[j]) && SteadyPeer(s, j) && j in PeersOf(s, s.handle[j]);
    hide Step;
  }

  /** A peer's object exists when the peer is finalized. */
  lemma FinalizeSteady(s: State, j: JId)
    requires Steady(s) && Enabled(s, FinalizePeer(j))
    ensures Exists(s, j) && Steady(Step(s, FinalizePeer(j)))
  {
    PeersExist(s);
    assert SteadyPeer(s, j);
    FinalizeEffect(s, j);
    FinalizedPending(s, j);
    var s' := Step(s, FinalizePeer(j));
    hide Step; hide SteadyPending;
    forall m | m in s'.natives ensures SteadyNative(s', m) { FinalizedNative(s, s', j, m); }
    forall k | k in s'.peers ensures SteadyPeer(s', k) { FinalizedPeer(s, s', j, k); }
  }

  lemma OnlyOne<T>(s: set<T>, x: T)
    requires x in s && |s| <= 1
    ensures s == {x}
  {
    assert |s - {x}| == |s| - 1;
  }

  lemma FinalizeEffect(s: State, j: JId)
    requires Steady(s) && Enabled(s, FinalizePeer(j)) && SteadyPeer(s, j)
    ensures Finalized(s, Step(s, FinalizePeer(j)), j)
  {
    var n := s.handle[j];
    var s1 := WithoutPeer(s, j, n);
    assert SteadyNative(s, n);
    if s.natives[n].refs == 1 {
      FinalizeLast(s, s1, n);
    } else {
      assert Release(s1, n).natives[n].jy == s.natives[n].jy;
    }
    hide Steady; hide CleanUp;
  }

  lemma FinalizeLast(s: State, s1: State, n: NId)
    requires n in s.natives && n in s1.natives && s.natives[n].refs == s1.natives[n].refs == 1 && !s.natives[n].typed
    requires HasHandle !in s.natives[n].flags && s1.natives[n].flags == s.natives[n].flags
    requires s1.natives == s.natives[n := s1.natives[n]]
    ensures Release(s1, n) == s1.(natives := s.natives - {n}, fault := Release(s1, n).fault)
  {
    assert Release(s1, n).natives == s.natives - {n};
  }

  lemma StepSteady(s: State, a: Action)
    requires Steady(s) && Enabled(s, a)
    ensures Steady(Step(s, a))
  {
    hide Steady;
    hide Step;
    match a
    case NewNative(n, flags, entry, typed) => NewNativeSteady(s, n, flags, entry, typed);
    case BeginEarly(j, n, flags) => BeginEarlySteady(s, j, n, flags);
    case EndEarly(n) => EndEarlySteady(s, n);
    case EndLate(j, n, flags) => EndLateSteady(s, j, n, flags);
    case ShareTuple(j, n) => ShareSteady(s, a, j, n);
    case ShareLate(j, n) => ShareSteady(s, a, j, n);
    case ShareJava(n, j) => ShareSteady(s, a, j, n);
    case Lookup(j) => LookupSteady(s, j);
    case BeginJava(n) => BeginJavaSteady(s, n);
    case EndJava(n, j) => if s.natives[n].typed { EndTypedSteady(s, n, j); } else { EndPeerSteady(s, n, j); }
    case Incref(n) => IncrefSteady(s, n);
    case Decref(n) => DecrefSteady(s, n);
    case FinalizePeer(j) => FinalizeSteady(s, j);
    case _ => QuietSteady(s, a);
  }

  lemma IncrefSteady(s: State, n: NId)
    requires Steady(s) && Enabled(s, Incref(n))
    ensures Steady(Step(s, Incref(n)))
  {
    TakeSteady(s, n);
  }

  lemma LookupSteady(s: State, j: JId)
    requires Steady(s) && Enabled(s, Lookup(j))
    ensures Steady(Step(s, Lookup(j)))
  {
    if Exists(s, j) { TakeSteady(s, s.handle[j]); } else { QuietSteady(s, Lookup(j)); }
  }

  lemma StartSteady()
    ensures Steady(Init())
  {
  }

  lemma {:induction false} ReachableSteady(r: Run)
    requires Possible(r)
    ensures Steady(After(r))
  {
    hide Steady;
    hide Step;
    hide Enabled;
    match r
    case Start => StartSteady();
    case Then(before, a) =>
      ReachableSteady(before);
      StepSteady(After(before), a);
  }

  /** The objects of conversions under way and of peers exist in every reachable state, and handles belong to live Java
      objects: what the steps demand of them excludes nothing. */
  lemma GuardsHold(r: Run)
    requires Possible(r)
    ensures var s := After(r);
            && (forall n :: n in s.early || n in s.toJava ==> n in s.natives)
            && (forall j :: j in s.peers ==> Exists(s, j) && j !in s.late && j !in s.early.Values && j !in s.pinned)
            && s.handle.Keys <= s.alive
  {
    ReachableSteady(r);
    PeersExist(After(r));
  }

  // ----- dead references returned without a test

  /** No conversion to Java would return a dead reference. */
  ghost predicate NoneDead(s: State) { forall n :: Unchecked(s, n) ==> Hit(s, n) }

  /** The step collects the counterpart that an eternal header leads to. */
  ghost predicate CollectsEternal(s: State, a: Action) {
    a.Collect? && exists n :: Unchecked(s, n) && s.natives[n].jy == WeakTo(a.j)
  }

  ghost predicate NeverDead(r: Run)
    requires Possible(r)
  {
    match r
    case Start => NoneDead(Init())
    case Then(before, a) => NeverDead(before) && NoneDead(After(r))
  }

  ghost predicate NoneCollected(r: Run)
    requires Possible(r)
  {
    match r
    case Start => true
    case Then(before, a) => NoneCollected(before) && !CollectsEternal(After(before), a)
  }

  lemma CollectDead(s: State, j: JId)
    requires NoneDead(s) && Enabled(s, Collect(j))
    ensures NoneDead(Step(s, Collect(j))) <==> !CollectsEternal(s, Collect(j))
  {
    var s' := Step(s, Collect(j));
    forall n | Unchecked(s, n) && s.natives[n].jy == WeakTo(j) ensures Unchecked(s', n) && !Hit(s', n) { }
    forall n | Unchecked(s', n) && s.natives[n].jy != WeakTo(j) ensures Hit(s', n) { assert Unchecked(s, n); }
  }

  lemma FinalizeDead(s: State, j: JId)
    requires Steady(s) && NoneDead(s) && Enabled(s, FinalizePeer(j))
    ensures NoneDead(Step(s, FinalizePeer(j)))
  {
    assert SteadyPeer(s, j);
    FinalizeEffect(s, j);
    var s' := Step(s, FinalizePeer(j));
    hide Step;
    forall n | Unchecked(s', n) ensures Hit(s', n) {
      assert SteadyNative(s, n) && Unchecked(s, n);
    }
  }

  lemma OneHeaderNotDead(s: State, s': State, n: NId)
    requires NoneDead(s) && s.alive <= s'.alive && (Unchecked(s', n) ==> Hit(s', n))
    requires forall m :: m in s'.natives && m != n ==> m in s.natives && s'.natives[m] == s.natives[m]
    ensures NoneDead(s')
  {
    forall m | Unchecked(s', m) ensures Hit(s', m) { if m != n { assert Unchecked(s, m); } }
  }

  lemma InitNotDead(s: State, s0: State, j: JId, n: NId)
    requires NoneDead(s) && n in s0.natives && s.alive <= s0.alive && j in s0.alive
    requires forall m :: m in s0.natives && m != n ==> m in s.natives && s0.natives[m] == s.natives[m]
    ensures NoneDead(InitJy(s0, j, n))
  {
    OneHeaderNotDead(s, InitJy(s0, j, n), n);
  }

  lemma TakeNotDead(s: State, n: NId)
    requires NoneDead(s) && n in s.natives
    ensures NoneDead(TakeReference(s, n))
  {
    assert Unchecked(s, n) ==> Hit(s, n);
    OneHeaderNotDead(s, TakeReference(s, n), n);
  }

  lemma MadeNotDead(s: State, a: Action)
    requires NoneDead(s) && Enabled(s, a) && (a.NewNative? || a.BeginEarly?)
    ensures NoneDead(Step(s, a))
  {
    OneHeaderNotDead(s, Step(s, a), a.n);
  }

  lemma QuietNotDead(s: State, a: Action)
    requires NoneDead(s) && Enabled(s, a) && (a.NewJava? || a.BeginLate? || (a.Lookup? && !Exists(s, a.j)))
    ensures NoneDead(Step(s, a))
  {
    forall m | Unchecked(Step(s, a), m) ensures Hit(Step(s, a), m) { assert Unchecked(s, m); }
  }

  lemma EndsNotDead(s: State, a: Action)
    requires Steady(s) && NoneDead(s) && Enabled(s, a) && (a.EndEarly? || a.EndLate? || a.EndJava?)
    ensures NoneDead(Step(s, a))
  {
    match a
    case EndEarly(n) => EndEarlyNotDead(s, n);
    case EndLate(j, n, flags) => EndLateNotDead(s, j, n, flags);
    case EndJava(n, j) => EndJavaNotDead(s, n, j);
  }

  lemma EndEarlyNotDead(s: State, n: NId)
    requires Steady(s) && NoneDead(s) && Enabled(s, EndEarly(n))
    ensures NoneDead(Step(s, EndEarly(n)))
  {
    hide InitJy; hide NoneDead;
    InitNotDead(s, s.(early := s.early - {n}), s.early[n], n);
  }

  lemma EndLateNotDead(s: State, j: JId, n: NId, flags: set<Flag>)
    requires Steady(s) && NoneDead(s) && Enabled(s, EndLate(j, n, flags))
    ensures NoneDead(Step(s, EndLate(j, n, flags)))
  {
    hide InitJy; hide NoneDead;
    InitNotDead(s, LateStart(s, j, n, flags), j, n);
  }

  lemma EndJavaNotDead(s: State, n: NId, j: JId)
    requires NoneDead(s) && Enabled(s, EndJava(n, j))
    ensures NoneDead(Step(s, EndJava(n, j)))
  {
    hide InitJy; hide NoneDead;
    var s1 := s.(alive := s.alive + {j}, used := s.used + {j}, toJava := s.toJava - multiset{n});
    if s.natives[n].typed { InitNotDead(s, s1, j, n); } else { OneHeaderNotDead(s, InitPeer(s1, n, j), n); }
  }

  lemma SharesNotDead(s: State, a: Action, j: JId, n: NId)
    requires Steady(s) && NoneDead(s) && Enabled(s, a) && a in {ShareTuple(j, n), ShareLate(j, n), ShareJava(n, j)}
    ensures NoneDead(Step(s, a))
  {
    hide InitJy;
    if a.ShareTuple? {
      InitNotDead(s, Register(TakeReference(s, n), j, n), j, n);
    } else if a.ShareLate? {
      InitNotDead(s, Marked(TakeReference(s, n), n, Marks(s, j)).(late := s.late - multiset{j}), j, n);
    } else {
      InitNotDead(s, s.(toJava := s.toJava - multiset{n}), j, n);
    }
  }

  lemma CleanedNotDead(s: State, a: Action)
    requires Steady(s) && NoneDead(s) && Enabled(s, a) && (a.BeginJava? || a.Decref?)
    ensures NoneDead(Step(s, a))
  {
    assert SteadyNative(s, a.n) && (Unchecked(s, a.n) ==> Hit(s, a.n));
    OneHeaderNotDead(s, Step(s, a), a.n);
  }

  lemma OthersNotDead(s: State, a: Action)
    requires Steady(s) && NoneDead(s) && Enabled(s, a) && !a.Collect? && !a.FinalizePeer?
    ensures NoneDead(Step(s, a))
  {
    match a
    case NewNative(_, _, _, _) => MadeNotDead(s, a);
    case BeginEarly(_, _, _) => MadeNotDead(s, a);
    case ShareTuple(j, n) => SharesNotDead(s, a, j, n);
    case ShareLate(j, n) => SharesNotDead(s, a, j, n);
    case ShareJava(n, j) => SharesNotDead(s, a, j, n);
    case Lookup(j) => if Exists(s, j) { TakeNotDead(s, s.handle[j]); } else { QuietNotDead(s, a); }
    case Incref(n) => TakeNotDead(s, n);
    case BeginJava(_) => CleanedNotDead(s, a);
    case Decref(_) => CleanedNotDead(s, a);
    case NewJava(_, _) => QuietNotDead(s, a);
    case BeginLate(_) => QuietNotDead(s, a);
    case _ => EndsNotDead(s, a);
  }

  lemma StepDeadIff(s: State, a: Action)
    requires Steady(s) && NoneDead(s) && Enabled(s, a)
    ensures NoneDead(Step(s, a)) <==> !CollectsEternal(s, a)
  {
    if a.Collect? { CollectDead(s, a.j); }
    else if a.FinalizePeer? { FinalizeDead(s, a.j); }
    else { OthersNotDead(s, a); }
  }

  /** No state of a run has an eternal header that leads to a dead object, exactly as long as no step collects what an
      eternal header leads to. */
  lemma {:induction false} NeverDeadIff(r: Run)
    requires Possible(r)
    ensures NeverDead(r) <==> NoneCollected(r)
  {
    hide Step;
    hide Enabled;
    hide Steady;
    hide NoneDead;
    match r
    case Start => StartNotDead();
    case Then(before, a) =>
      NeverDeadIff(before);
      ReachableSteady(before);
      if NeverDead(before) {
        NotDeadEnds(before);
        StepDeadIff(After(before), a);
      }
  }

  lemma NotDeadEnds(r: Run)
    requires Possible(r) && NeverDead(r)
    ensures NoneDead(After(r))
  {
  }

  lemma StartNotDead()
    ensures NoneDead(Init())
  {
  }
}
