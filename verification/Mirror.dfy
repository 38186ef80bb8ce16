/** The mirror relation between native and Java objects under any interleaving of conversions in both directions,
    Java garbage collection and native reference counting. A native object's header records its Java counterpart through a
    weak reference, a Java object records its native handle; conversions register half-built objects and recurse. */
module Mirror {
  import opened Basics

  datatype Flag = Initialized | HasHandle | Gc | Truncate | CPeer | Subtype | Eternal

  /** The header field jy: the code reads it as a type-map entry or as a weak reference depending on the flags.
      `Deleted`: a weak reference that DeleteWeakGlobalRef was called on. */
  datatype JyField = NoRef | TypeEntry | WeakTo(j: JId) | Deleted

  /** `typed`: the object's type has a type-map entry; without one the counterpart is a PyCPeer. `refs`: the reference
      count; `peerRefs`: how many of the references belong to PyCPeers, the others to native code. */
  datatype Header = Header(flags: set<Flag>, jy: JyField, typed: bool, refs: int, peerRefs: int)

  /** `used`: Java objects that ever existed. `pinned`: Jython's preallocated ints and letters, never collected. `peers`: PyCPeers, each of which owns a native reference.
      Conversions under way: `early` have registered a native object that is half-built, `late` have none yet,
      `toJava` have no Java object yet. Any of them may end next, which includes the last-in first-out order of the
      C stack. `fault`: some step read a header field as the wrong kind. `stale`: some step read the header of an object
      that was freed. */
  datatype State = State(natives: map<NId, Header>, alive: set<JId>, used: set<JId>, pinned: set<JId>, handle: map<JId, NId>,
                         peers: set<JId>, early: map<NId, JId>, late: multiset<JId>, toJava: multiset<NId>, fault: bool, stale: bool)

  datatype Action =
    | NewNative(n: NId, flags: set<Flag>, entry: bool, typed: bool)
    | NewJava(j: JId, pinned: bool)
    | BeginEarly(j: JId, n: NId, flags: set<Flag>)
    | EndEarly(n: NId)
    | BeginLate(j: JId)
    | EndLate(j: JId, n: NId, flags: set<Flag>)
    // constructors that return an object that exists already: an empty tuple, a small int, a one-letter string, ...
    | ShareTuple(j: JId, n: NId)
    | ShareLate(j: JId, n: NId)
    | ShareJava(n: NId, j: JId)
    | Lookup(j: JId)
    | BeginJava(n: NId)
    | EndJava(n: NId, j: JId)
    | Collect(j: JId)
    | Incref(n: NId)
    | Decref(n: NId)
    | FinalizePeer(j: JId)

  // ----- steps

  predicate Hit(s: State, n: NId) {
    n in s.natives && Initialized in s.natives[n].flags && s.natives[n].jy.WeakTo? && s.natives[n].jy.j in s.alive
  }

  /** The handle of j leads to an object that exists. Conversion to native uses handles without asking. */
  predicate Exists(s: State, j: JId) { j in s.handle && s.handle[j] in s.natives }

  /** A header marked as eternal: a conversion to Java returns what its weak reference gives, without a test. */
  predicate Unchecked(s: State, n: NId) { n in s.natives && {Initialized, Eternal} <= s.natives[n].flags }

  /** pyInit marks the native object of a preallocated Java object. */
  function Marks(s: State, j: JId): set<Flag> { if j in s.pinned then {Eternal} else {} }

  predicate Fresh(s: State, n: NId, flags: set<Flag>) { n !in s.natives && flags <= {Gc, Truncate, CPeer} }

  /** A finished native object that a constructor may hand out once more. */
  predicate Shareable(s: State, n: NId) { n in s.natives && s.natives[n].typed && n !in s.early }

  /** References that conversions under way rely on. */
  function InUse(s: State, n: NId): int { if n in s.early || n in s.toJava then 1 else 0 }

  ghost predicate Enabled(s: State, a: Action) {
    match a
    case NewNative(n, flags, entry, typed) => Fresh(s, n, flags) && (entry ==> typed)
    case NewJava(j, _) => j !in s.used
    case BeginEarly(j, n, flags) => j in s.alive && j !in s.handle && Fresh(s, n, flags)
    case EndEarly(n) => n in s.early && n in s.natives
    case BeginLate(j) => j in s.alive && j !in s.handle
    case EndLate(j, n, flags) => j in s.late && Fresh(s, n, flags)
    case ShareTuple(j, n) => j in s.alive && j !in s.handle && Shareable(s, n)
    case ShareLate(j, n) => j in s.late && Shareable(s, n)
    case ShareJava(n, j) => n in s.toJava && n in s.natives && s.natives[n].typed && j in s.alive && j !in s.peers
    case Lookup(j) => j in s.alive && j in s.handle
    case BeginJava(n) => n in s.natives && !Hit(s, n) && !Unchecked(s, n) && s.natives[n].refs > s.natives[n].peerRefs
    case EndJava(n, j) => n in s.toJava && n in s.natives && j !in s.used
    case Collect(j) => j in s.alive && j !in s.pinned && j !in s.peers && j !in s.late && j !in s.early.Values
    case Incref(n) => n in s.natives
    case Decref(n) => n in s.natives && s.natives[n].refs > s.natives[n].peerRefs + InUse(s, n)
    case FinalizePeer(j) =>
      j in s.peers && j in s.handle && j !in s.late && j !in s.early.Values && j !in s.pinned
  }

  /** JyNI_CleanUp_JyObject. */
  function CleanUp(s: State, n: NId): State
    requires n in s.natives
  {
    var h := s.natives[n];
    if h.jy != NoRef && Initialized in h.flags then
      s.(fault := s.fault || !h.jy.WeakTo?,
         handle := if HasHandle in h.flags && h.jy.WeakTo? && h.jy.j in s.alive then s.handle - {h.jy.j} else s.handle,
         natives := s.natives[n := h.(flags := {}, jy := NoRef)])
    else s
  }

  /** INIT_JY: the weak reference, the handle unless the flag says there is one, the flags. */
  function InitJy(s: State, j: JId, n: NId): State
    requires n in s.natives
  {
    var h := s.natives[n];
    s.(natives := s.natives[n := h.(jy := WeakTo(j), flags := h.flags + {Initialized, HasHandle})],
       handle := if HasHandle in h.flags then s.handle else s.handle[j := n])
  }

  /** setNativeHandle and the flag that says so, as the constructor of tuples does itself. */
  function Register(s: State, j: JId, n: NId): State
    requires n in s.natives
  {
    s.(natives := s.natives[n := s.natives[n].(flags := s.natives[n].flags + {HasHandle})], handle := s.handle[j := n])
  }

  function Marked(s: State, n: NId, marks: set<Flag>): State
    requires n in s.natives
  {
    s.(natives := s.natives[n := s.natives[n].(flags := s.natives[n].flags + marks)])
  }

  function TakeReference(s: State, n: NId): State
    requires n in s.natives
  {
    s.(natives := s.natives[n := s.natives[n].(refs := s.natives[n].refs + 1)])
  }

  function InitPeer(s: State, n: NId, j: JId): State
    requires n in s.natives
  {
    var h := s.natives[n];
    s.(natives := s.natives[n := h.(jy := WeakTo(j), flags := h.flags + {Initialized, CPeer}, refs := h.refs + 1,
                                        peerRefs := h.peerRefs + 1)],
       handle := s.handle[j := n], peers := s.peers + {j})
  }

  /** A conversion to Java that the header does not answer: a dead counterpart is cleaned up, then the type-map
      entry is taken from the header if the field is not empty. */
  function MissJava(s: State, n: NId): State
    requires n in s.natives
  {
    var h := s.natives[n];
    var s1 := if Initialized in h.flags then CleanUp(s, n).(fault := s.fault || !h.jy.WeakTo?) else s;
    var jy := s1.natives[n].jy;
    s1.(fault := s1.fault || (jy != NoRef && jy != TypeEntry), toJava := s1.toJava + multiset{n})
  }

  /** Py_DECREF: the last reference given up frees the object, which cleans up its header. */
  function Release(s: State, n: NId): State
    requires n in s.natives
  {
    var h := s.natives[n];
    if h.refs == 1 then var s1 := CleanUp(s, n); s1.(natives := s1.natives - {n})
    else s.(natives := s.natives[n := h.(refs := h.refs - 1)])
  }

  /** Java has given up the peer j of n, whose reference nobody owns for the moment. */
  function WithoutPeer(s: State, j: JId, n: NId): State
    requires n in s.natives
  {
    var h := s.natives[n];
    s.(natives := s.natives[n := h.(peerRefs := h.peerRefs - 1)], alive := s.alive - {j}, handle := s.handle - {j},
       peers := s.peers - {j})
  }

  /** Deletes the weak reference found in the header of n, whether or not n still exists. */
  function DeleteReference(s: State, n: NId): State {
    if n in s.natives then
      s.(natives := s.natives[n := s.natives[n].(jy := Deleted)], fault := s.fault || !s.natives[n].jy.WeakTo?)
    else s.(stale := true)
  }

  /** JyNI_clearPyCPeer when the peer j of n is finalized: the reference is given up, then the weak reference deleted,
      whatever the flags say. */
  function ClearPeer(s: State, j: JId, n: NId): State
    requires n in s.natives
  {
    DeleteReference(Release(WithoutPeer(s, j, n), n), n)
  }

  function Step(s: State, a: Action): State
    requires Enabled(s, a)
  {
    match a
    case NewNative(n, flags, entry, typed) =>
      s.(natives := s.natives[n := Header(flags, if entry then TypeEntry else NoRef, typed, 1, 0)])
    case NewJava(j, pinned) =>
      s.(alive := s.alive + {j}, used := s.used + {j}, pinned := s.pinned + if pinned then {j} else {})
    case BeginEarly(j, n, flags) =>
      s.(natives := s.natives[n := Header(flags + {HasHandle}, TypeEntry, true, 1, 0)], handle := s.handle[j := n],
         early := s.early[n := j])
    case EndEarly(n) => InitJy(s.(early := s.early - {n}), s.early[n], n)
    case BeginLate(j) => s.(late := s.late + multiset{j})
    case EndLate(j, n, flags) =>
      InitJy(s.(natives := s.natives[n := Header(flags + Marks(s, j), TypeEntry, true, 1, 0)], late := s.late - multiset{j}), j, n)
    case ShareTuple(j, n) => InitJy(Register(TakeReference(s, n), j, n), j, n)
    case ShareLate(j, n) => InitJy(Marked(TakeReference(s, n), n, Marks(s, j)).(late := s.late - multiset{j}), j, n)
    case ShareJava(n, j) => InitJy(s.(toJava := s.toJava - multiset{n}), j, n)
    case Lookup(j) => if Exists(s, j) then TakeReference(s, s.handle[j]) else s.(stale := true)
    case BeginJava(n) => MissJava(s, n)
    case EndJava(n, j) =>
      var s1 := s.(alive := s.alive + {j}, used := s.used + {j}, toJava := s.toJava - multiset{n});
      if s.natives[n].typed then InitJy(s1, j, n) else InitPeer(s1, n, j)
    case Collect(j) => s.(alive := s.alive - {j}, handle := s.handle - {j})
    case Incref(n) => TakeReference(s, n)
    case Decref(n) => Release(s, n)
    case FinalizePeer(j) =>
      if Exists(s, j) then ClearPeer(s, j, s.handle[j])
      else s.(alive := s.alive - {j}, handle := s.handle - {j}, peers := s.peers - {j}, stale := true)
  }

  // ----- the field jy as a tagged union

  /** INITIALIZED means a weak reference; otherwise the field is empty or a type-map entry. */
  predicate Tagged(h: Header) {
    (Initialized in h.flags <==> h.jy.WeakTo?) && h.jy != Deleted
  }

  ghost predicate Union(s: State) { !s.fault && forall n :: n in s.natives ==> Tagged(s.natives[n]) }

  // ----- the mirror relation

  predicate Half(h: Header) { HasHandle in h.flags && Initialized !in h.flags }

  /** A header that leads to a live Java object is that object's handle; half-built objects are those whose
      conversion is under way; objects without a type-map entry are mirrored by live peers, one each, which own a
      reference; conversions under way find their object referenced; what is marked as eternal leads to a preallocated
      Java object. */
  predicate GoodNative(s: State, n: NId)
    requires n in s.natives
  {
    var h := s.natives[n];
    && Tagged(h) && (Half(h) <==> n in s.early)
    && (h.jy.WeakTo? ==> h.jy.j in s.used && (h.jy.j in s.alive ==> h.jy.j in s.handle && s.handle[h.jy.j] == n))
    && (h.typed && Initialized in h.flags ==> HasHandle in h.flags)
    && (!h.typed ==> HasHandle !in h.flags && h.jy != TypeEntry && (h.jy.WeakTo? ==> h.jy.j in s.peers))
    && (Eternal in h.flags ==> h.jy.WeakTo? && h.jy.j in s.pinned)
    && h.refs >= h.peerRefs + InUse(s, n) && h.peerRefs == if !h.typed && h.jy.WeakTo? then 1 else 0
  }

  /** A handle leads to a native object whose header leads back, or will once the conversion under way ends. */
  predicate GoodHandle(s: State, j: JId)
    requires j in s.handle
  {
    var n := s.handle[j];
    j in s.alive && n in s.natives && if n in s.early then s.early[n] == j else s.natives[n].jy == WeakTo(j)
  }

  predicate GoodEarly(s: State, n: NId)
    requires n in s.early
  {
    n in s.natives && s.natives[n].typed && s.early[n] in s.handle && s.handle[s.early[n]] == n
  }

  predicate GoodPeer(s: State, j: JId) {
    j in s.alive && j in s.handle && s.handle[j] in s.natives && !s.natives[s.handle[j]].typed
  }

  ghost predicate AllNatives(s: State) { forall n :: n in s.natives ==> GoodNative(s, n) }

  ghost predicate AllHandles(s: State) { forall j :: j in s.handle ==> GoodHandle(s, j) }

  ghost predicate AllPending(s: State) {
    && (forall n :: n in s.early ==> GoodEarly(s, n))
    && (forall j :: j in s.late ==> j in s.alive)
    && (forall n :: n in s.toJava ==> n in s.natives)
  }

  ghost predicate AllPeers(s: State) {
    s.pinned <= s.alive <= s.used && forall j :: j in s.peers ==> GoodPeer(s, j)
  }

  ghost predicate Good(s: State) { !s.fault && AllNatives(s) && AllHandles(s) && AllPending(s) && AllPeers(s) }

  function Init(): State { State(map[], {}, {}, {}, map[], {}, map[], multiset{}, multiset{}, false, false) }

  /** The peer's object has no other owner. */
  predicate LastOwner(s: State, j: JId) { Exists(s, j) ==> s.natives[s.handle[j]].refs == 1 }

  /** INIT_JY makes n and j each other's counterparts: they are already, or neither has one, and the flag that says
      whether n has a handle is not left from an earlier one. */
  predicate Joins(s: State, n: NId, j: JId) {
    n in s.natives && (s.natives[n].jy == WeakTo(j) || (j !in s.handle && HasHandle !in s.natives[n].flags))
  }

  /** What a step must respect: an object that registers last was not registered meanwhile; an object converted to
      Java is neither half-built nor was converted meanwhile; an object that a constructor hands out once more has no
      live counterpart of its own, nor, unless it is a tuple, the handle flag of a former one; no peer is finalized
      whose object has another owner. */
  ghost predicate Benign(s: State, a: Action) {
    match a
    case EndLate(j, n, flags) => j !in s.handle
    case EndJava(n, j) => n in s.natives && {Initialized, HasHandle} !! s.natives[n].flags
    case ShareTuple(j, n) => !Hit(s, n)
    case ShareLate(j, n) => Joins(s, n, j)
    case ShareJava(n, j) => Joins(s, n, j)
    case FinalizePeer(j) => LastOwner(s, j)
    case _ => true
  }

  // ----- the union is kept

  lemma SimpleKeepsUnion(s: State, a: Action)
    requires Union(s) && Enabled(s, a) && !a.BeginJava? && !a.EndJava? && !a.Decref? && !a.FinalizePeer? && !a.EndLate?
    requires !a.ShareTuple? && !a.ShareLate? && !a.ShareJava?
    ensures Union(Step(s, a))
  {
  }

  lemma InitKeepsUnion(s: State, s': State, j: JId, n: NId)
    requires Union(s) && n in s'.natives && s.natives.Keys == s'.natives.Keys && s'.fault == s.fault
    requires forall m :: m in s.natives && m != n ==> s'.natives[m] == s.natives[m]
    ensures Union(InitJy(s', j, n))
  {
  }

  lemma EndLateKeepsUnion(s: State, j: JId, n: NId, flags: set<Flag>)
    requires Union(s) && Enabled(s, EndLate(j, n, flags))
    ensures Union(Step(s, EndLate(j, n, flags)))
  {
  }

  lemma EndJavaKeepsUnion(s: State, n: NId, j: JId)
    requires Union(s) && Enabled(s, EndJava(n, j))
    ensures Union(Step(s, EndJava(n, j)))
  {
  }

  /** Cleaning up leaves an empty field, unless there was nothing to clean up. */
  lemma CleanUpKeepsUnion(s: State, n: NId)
    requires Union(s) && n in s.natives
    ensures Union(CleanUp(s, n)) && CleanUp(s, n).natives.Keys == s.natives.Keys
    ensures CleanUp(s, n).natives[n].jy in {NoRef, TypeEntry}
  {
  }

  lemma BeginJavaKeepsUnion(s: State, n: NId)
    requires Union(s) && Enabled(s, BeginJava(n))
    ensures Union(Step(s, BeginJava(n)))
  {
    CleanUpKeepsUnion(s, n);
    hide CleanUp;
  }

  lemma ReleaseKeepsUnion(s: State, n: NId)
    requires Union(s) && n in s.natives
    ensures Union(Release(s, n)) && (n in Release(s, n).natives <==> s.natives[n].refs != 1)
    ensures n in Release(s, n).natives ==> Release(s, n).natives[n].flags == s.natives[n].flags
  {
    CleanUpKeepsUnion(s, n);
    hide CleanUp;
  }

  /** A finalizer keeps the union exactly if it frees the object, whose header it reads nevertheless. */
  lemma FinalizerUnion(s: State, j: JId)
    requires Union(s) && Enabled(s, FinalizePeer(j))
    ensures Union(Step(s, FinalizePeer(j))) <==> LastOwner(s, j)
    ensures LastOwner(s, j) ==> Step(s, FinalizePeer(j)).stale
  {
    if Exists(s, j) {
      var n := s.handle[j];
      var gone := WithoutPeer(s, j, n);
      assert Union(gone);
      ReleaseKeepsUnion(gone, n);
      var s' := Step(s, FinalizePeer(j));
      hide Release;
      if !LastOwner(s, j) { assert s'.natives[n].jy == Deleted; }
    }
  }

  /** The header of a freed object is read by the finalizer that freed it, and through a handle that it left. */
  lemma StaleIff(s: State, a: Action)
    requires Enabled(s, a)
    ensures Step(s, a).stale <==> s.stale || (a.FinalizePeer? && LastOwner(s, a.j)) || (a.Lookup? && !Exists(s, a.j))
  {
  }

  /** A finalized peer is gone with its handle, whether or not its object still exists. */
  lemma FinalizerRemoves(s: State, j: JId)
    requires Enabled(s, FinalizePeer(j))
    ensures var s' := Step(s, FinalizePeer(j)); j !in s'.alive && j !in s'.handle && j !in s'.peers
  {
    if Exists(s, j) {
      var gone := WithoutPeer(s, j, s.handle[j]);
      hide Step; hide DeleteReference;
      assert Release(gone, s.handle[j]).handle.Keys <= gone.handle.Keys;
      FinalizerSteps(s, j);
    }
  }

  lemma FinalizerSteps(s: State, j: JId)
    requires Enabled(s, FinalizePeer(j)) && Exists(s, j)
    ensures var n := s.handle[j]; var z := Release(WithoutPeer(s, j, n), n); var s' := Step(s, FinalizePeer(j));
            s'.alive == z.alive == s.alive - {j} && s'.handle == z.handle && s'.peers == z.peers == s.peers - {j}
  {
  }

  /** Cleaning up reads the field of an initialised header, if there is one, as a weak reference. */
  predicate CleansWrongly(h: Header) { Initialized in h.flags && h.jy != NoRef && !h.jy.WeakTo? }

  /** A step reads a header's field as what it is not: a conversion to Java reads it as a weak reference or else as a
      type-map entry; the last owner cleans it up; a finalizer that is not the last owner deletes it. */
  predicate WrongRead(s: State, a: Action) {
    match a
    case BeginJava(n) =>
      n in s.natives && var h := s.natives[n];
      if Initialized in h.flags then !h.jy.WeakTo? else h.jy !in {NoRef, TypeEntry}
    case Decref(n) => n in s.natives && s.natives[n].refs == 1 && CleansWrongly(s.natives[n])
    case FinalizePeer(j) =>
      Exists(s, j) && var h := s.natives[s.handle[j]];
      if h.refs == 1 then CleansWrongly(h) else !h.jy.WeakTo?
    case _ => false
  }

  lemma FaultIff(s: State, a: Action)
    requires Enabled(s, a)
    ensures Step(s, a).fault <==> s.fault || WrongRead(s, a)
  {
  }

  /** The references to n that a step adds: conversion and sharing add one, a peer owns one. */
  function Adds(s: State, a: Action, n: NId): int
    requires n in s.natives
  {
    match a
    case Incref(m) => if m == n then 1 else 0
    case Lookup(j) => if j in s.handle && s.handle[j] == n then 1 else 0
    case ShareTuple(_, m) => if m == n then 1 else 0
    case ShareLate(_, m) => if m == n then 1 else 0
    case EndJava(m, _) => if m == n && !s.natives[n].typed then 1 else 0
    case Decref(m) => if m == n then -1 else 0
    case FinalizePeer(j) => if j in s.handle && s.handle[j] == n then -1 else 0
    case _ => 0
  }

  /** Reference counts: objects exist from one reference until none is left. */
  ghost predicate Follows(s: State, s': State, n: NId, added: int, made: bool) {
    && (n in s.natives ==>
          if s.natives[n].refs == 1 && added == -1 then n !in s'.natives
          else n in s'.natives && s'.natives[n].refs == s.natives[n].refs + added && s'.natives[n].typed == s.natives[n].typed)
    && (n !in s.natives ==> (n in s'.natives <==> made)
                            && (made ==> s'.natives[n].refs == 1 && s'.natives[n].peerRefs == 0))
  }

  /** The step makes the native object n. */
  predicate Makes(a: Action, n: NId) { (a.NewNative? || a.BeginEarly? || a.EndLate?) && a.n == n }

  lemma InitFollows(s: State, j: JId, n: NId, m: NId)
    requires n in s.natives
    ensures Follows(s, InitJy(s, j, n), m, 0, false) && InitJy(s, j, n).natives.Keys == s.natives.Keys
  {
  }

  lemma MissFollows(s: State, n: NId, m: NId)
    requires n in s.natives
    ensures Follows(s, MissJava(s, n), m, 0, false)
  {
  }

  lemma ReleaseFollows(s: State, n: NId, m: NId)
    requires n in s.natives
    ensures Follows(s, Release(s, n), m, if m == n then -1 else 0, false)
  {
  }

  lemma ClearFollows(s: State, j: JId, n: NId, m: NId)
    requires n in s.natives
    ensures Follows(s, ClearPeer(s, j, n), m, if m == n then -1 else 0, false)
  {
    ReleaseFollows(WithoutPeer(s, j, n), n, m);
    hide Release;
  }

  lemma SharingFollows(s: State, a: Action, n: NId)
    requires Enabled(s, a) && (a.ShareTuple? || a.ShareLate? || a.ShareJava?)
    ensures Follows(s, Step(s, a), n, if n in s.natives then Adds(s, a, n) else 0, Makes(a, n))
  {
    match a
    case ShareTuple(j, m) => InitFollows(Register(TakeReference(s, m), j, m), j, m, n);
    case ShareLate(j, m) => InitFollows(Marked(TakeReference(s, m), m, Marks(s, j)).(late := s.late - multiset{j}), j, m, n);
    case ShareJava(m, j) => InitFollows(s.(toJava := s.toJava - multiset{m}), j, m, n);
    hide InitJy;
  }

  lemma EndingFollows(s: State, a: Action, n: NId)
    requires Enabled(s, a) && (a.EndEarly? || a.EndLate? || a.EndJava?)
    ensures Follows(s, Step(s, a), n, if n in s.natives then Adds(s, a, n) else 0, Makes(a, n))
  {
  }

  lemma CountsFollow(s: State, a: Action, n: NId)
    requires Enabled(s, a)
    ensures Follows(s, Step(s, a), n, if n in s.natives then Adds(s, a, n) else 0, Makes(a, n))
  {
    if a.ShareTuple? || a.ShareLate? || a.ShareJava? {
      SharingFollows(s, a, n);
      hide Step;
    } else if a.EndEarly? || a.EndLate? || a.EndJava? {
      EndingFollows(s, a, n);
      hide Step;
    } else {
      if a.BeginJava? { MissFollows(s, a.n, n); }
      if a.Decref? { ReleaseFollows(s, a.n, n); }
      if a.FinalizePeer? && Exists(s, a.j) { ClearFollows(s, a.j, s.handle[a.j], n); }
      hide MissJava; hide Release; hide ClearPeer; hide InitJy; hide InitPeer; hide Register; hide Marked;
    }
  }

  /** Every step keeps the union and reads the field as what it is, even when conversions re-enter objects that are
      half-built, except a peer's finalizer while the object has another owner. */
  lemma UnionKeptIff(s: State, a: Action)
    requires Union(s) && Enabled(s, a)
    ensures Union(Step(s, a)) <==> (a.FinalizePeer? ==> LastOwner(s, a.j))
  {
    hide Union;
    hide Enabled;
    hide Step;
    match a
    case BeginJava(n) => BeginJavaKeepsUnion(s, n);
    case EndJava(n, j) => EndJavaKeepsUnion(s, n, j);
    case EndLate(j, n, flags) => EndLateKeepsUnion(s, j, n, flags);
    case Decref(n) => DecrefKeepsUnion(s, n);
    case FinalizePeer(j) => FinalizerUnion(s, j);
    case ShareTuple(j, n) => SharedKeepsUnion(s, a, j, n);
    case ShareLate(j, n) => SharedKeepsUnion(s, a, j, n);
    case ShareJava(n, j) => SharedKeepsUnion(s, a, j, n);
    case _ => SimpleKeepsUnion(s, a);
  }

  lemma SharedKeepsUnion(s: State, a: Action, j: JId, n: NId)
    requires Union(s) && Enabled(s, a) && a in {ShareTuple(j, n), ShareLate(j, n), ShareJava(n, j)}
    ensures Union(Step(s, a))
  {
    hide InitJy;
    if a.ShareTuple? {
      InitKeepsUnion(s, Register(TakeReference(s, n), j, n), j, n);
    } else if a.ShareLate? {
      InitKeepsUnion(s, Marked(TakeReference(s, n), n, Marks(s, j)).(late := s.late - multiset{j}), j, n);
    } else {
      InitKeepsUnion(s, s.(toJava := s.toJava - multiset{n}), j, n);
    }
  }

  lemma DecrefKeepsUnion(s: State, n: NId)
    requires Union(s) && Enabled(s, Decref(n))
    ensures Union(Step(s, Decref(n)))
  {
    ReleaseKeepsUnion(s, n);
    hide Release;
  }

  /** JyNI_clearPyCPeer deletes the weak reference of an object that lives on but leaves the object flagged: its next
      conversion to Java reads the deleted reference. */
  lemma FinalizerBreaksUnion(s: State, j: JId)
    requires Good(s) && Enabled(s, FinalizePeer(j)) && !LastOwner(s, j)
    ensures Exists(s, j)
    ensures var s' := Step(s, FinalizePeer(j)); var n := s.handle[j];
            !Union(s') && Enabled(s', BeginJava(n)) && Step(s', BeginJava(n)).fault
  {
    assert GoodPeer(s, j) && GoodHandle(s, j) && GoodNative(s, s.handle[j]);
    assert !Tagged(Step(s, FinalizePeer(j)).natives[s.handle[j]]);
  }
}
