/** The entry protocol of JyNI.h: ENTER_JyNI, LEAVE_JyNI, RE_ENTER_JyNI and RE_LEAVE_JyNI over one lock and one
    global "current thread state", for any number of threads, step by step. Every step is one access to shared
    state, so all interleavings are covered, including the test of the current state made without the lock. */
module EntryLock {
  import opened Basics

  type Tid = nat       // a thread and its own PyThreadState
  type Err = nat       // one raised native error

  /** A native activation, with the local variable `reenter`; or a call back into Java, with the thread state
      that Py_BEGIN_ALLOW_THREADS saved if it released the lock. */
  datatype Frame = CallIn(reenter: bool) | CallOut(saved: Option<Tid>)

  /** A thread's activations and call-outs, innermost first. */
  datatype Stack = Bottom | On(top: Frame, below: Stack)

  datatype Pc =
    | InJava        // outside native code, or in a call-out
    | InNative
    | Entering      // about to acquire the lock in ENTER_JyNI
    | Entered       // lock acquired, current thread state not yet checked and set
    | Leaving       // current thread state cleared, lock not yet released
    | Saving        // the same in PyEval_SaveThread
    | Restoring     // about to acquire the lock in PyEval_RestoreThread
    | Restored      // lock acquired there, current thread state not yet set
    | BareWaiting   // about to acquire the lock in JyNI_clearPyCPeer
    | BareHolding

  datatype Thread = Thread(pc: Pc, stack: Stack, err: Option<Err>)

  /** `holder` is None exactly while JyLock.locked is false; who holds it is bookkeeping the code does not have. */
  datatype State = State(holder: Option<Tid>, current: Option<Tid>, threads: map<Tid, Thread>,
                         fatal: bool, raised: set<Err>, handed: seq<Err>)

  datatype Action =
    | ReEnter | Enter | Acquire | SetCurrent
    | Raise(e: Err) | ClearError
    | Leave | Release
    | CallOutHeld | ReturnHeld
    | Save | SaveRelease | Restore | RestoreAcquire | RestoreSet
    | Bare | BareAcquire | BareRelease

  predicate Enabled(s: State, t: Tid, a: Action) {
    t in s.threads && !s.fatal &&
    var th := s.threads[t];
    match a
    case ReEnter | Enter | Bare => th.pc == InJava
    case Acquire => th.pc == Entering && s.holder == None
    case SetCurrent => th.pc == Entered
    case Raise(e) => th.pc == InNative && e !in s.raised
    case ClearError | CallOutHeld | Save => th.pc == InNative
    case Leave => th.pc == InNative && th.stack.On?
    case Release => th.pc == Leaving && th.stack.On?
    case ReturnHeld => th.pc == InJava && th.stack.On? && th.stack.top == CallOut(None)
    case Restore => th.pc == InJava && th.stack.On? && th.stack.top.CallOut? && th.stack.top.saved.Some?
    case SaveRelease => th.pc == Saving
    case RestoreAcquire => th.pc == Restoring && s.holder == None
    case RestoreSet => th.pc == Restored && th.stack.On? && th.stack.top.CallOut?
    case BareAcquire => th.pc == BareWaiting && s.holder == None
    case BareRelease => th.pc == BareHolding
  }

  function Put(s: State, t: Tid, th: Thread): State { s.(threads := s.threads[t := th]) }

  function Step(s: State, t: Tid, a: Action): State
    requires Enabled(s, t, a)
  {
    var th := s.threads[t];
    match a
    case ReEnter =>
      // int reenter = _PyThreadState_Current == tstate, read without the lock
      if s.current == Some(t) then Put(s, t, th.(pc := InNative, stack := On(CallIn(true), th.stack)))
      else Put(s, t, th.(pc := Entering, stack := On(CallIn(false), th.stack)))
    case Enter => Put(s, t, th.(pc := Entering, stack := On(CallIn(false), th.stack)))
    case Acquire => Put(s.(holder := Some(t)), t, th.(pc := Entered))
    case SetCurrent =>
      if s.current.Some? then s.(fatal := true)   // ENTER_JyNI: overwriting non-NULL tstate
      else Put(s.(current := Some(t)), t, th.(pc := InNative))
    case Raise(e) => Put(s.(raised := s.raised + {e}), t, th.(err := Some(e)))
    case ClearError => Put(s, t, th.(err := None))
    case Leave =>
      if th.stack.top == CallIn(true) then Put(s, t, th.(pc := InJava, stack := th.stack.below))
      else
        // JyErr_InsertCurExc takes the pending error out of the thread state and hands it to Java
        var handed := if th.err.Some? then s.handed + [th.err.value] else s.handed;
        Put(s.(handed := handed, current := None), t, th.(pc := Leaving, err := None))
    case Release => Put(s.(holder := None), t, th.(pc := InJava, stack := th.stack.below))
    case CallOutHeld => Put(s, t, th.(pc := InJava, stack := On(CallOut(None), th.stack)))
    case ReturnHeld => Put(s, t, th.(pc := InNative, stack := th.stack.below))
    case Save =>
      if s.current == None then s.(fatal := true)   // PyEval_SaveThread: NULL tstate
      else Put(s.(current := None), t, th.(pc := Saving, stack := On(CallOut(s.current), th.stack)))
    case SaveRelease => Put(s.(holder := None), t, th.(pc := InJava))
    case Restore => Put(s, t, th.(pc := Restoring))
    case RestoreAcquire => Put(s.(holder := Some(t)), t, th.(pc := Restored))
    case RestoreSet => Put(s.(current := th.stack.top.saved), t, th.(pc := InNative, stack := th.stack.below))
    case Bare => Put(s, t, th.(pc := BareWaiting))
    case BareAcquire => Put(s.(holder := Some(t)), t, th.(pc := BareHolding))
    case BareRelease => Put(s.(holder := None), t, th.(pc := InJava))
  }

  function Init(ids: set<Tid>): State {
    State(None, None, map t | t in ids :: Thread(InJava, Bottom, None), false, {}, [])
  }

  // ----- what a thread's own stack says

  /** Java code running on this stack was called out to without releasing the lock. */
  predicate OutHeld(stack: Stack) { stack.On? && stack.top == CallOut(None) }

  predicate InJavaOn(stack: Stack) { stack.On? ==> stack.top.CallOut? }

  predicate InNativeOn(stack: Stack) { stack.On? && stack.top.CallIn? }

  /** The frames below the activation that is just being entered. */
  function Below(th: Thread): Stack {
    if th.pc == Entering && th.stack.On? then th.stack.below else th.stack
  }

  predicate Holds(th: Thread) {
    match th.pc
    case InNative | Entered | Leaving | Saving | Restored | BareHolding => true
    case InJava | BareWaiting | Entering => OutHeld(Below(th))
    case Restoring => false
  }

  /** The thread's own state is the current one. */
  predicate IsCurrent(th: Thread) {
    match th.pc
    case InNative => true
    case InJava | BareWaiting | Entering => OutHeld(Below(th))
    case _ => false
  }

  /** Activations and call-outs alternate, and every activation recorded whether the lock was held. */
  predicate WellNested(t: Tid, stack: Stack) {
    match stack
    case Bottom => true
    case On(CallIn(reenter), below) => InJavaOn(below) && reenter == OutHeld(below) && WellNested(t, below)
    case On(CallOut(saved), below) => InNativeOn(below) && saved in {None, Some(t)} && WellNested(t, below)
  }

  predicate Local(t: Tid, th: Thread) {
    && WellNested(t, Below(th))
    && match th.pc
       case InJava | BareWaiting => InJavaOn(th.stack)
       case InNative => InNativeOn(th.stack)
       case Entering => th.stack.On? && th.stack.top == CallIn(false) && InJavaOn(th.stack.below)
       case Entered | Leaving => th.stack.On? && th.stack.top == CallIn(false)
       case Saving | Restoring | Restored => th.stack.On? && th.stack.top == CallOut(Some(t))
       case BareHolding => InJavaOn(th.stack) && !OutHeld(th.stack)
  }

  ghost predicate Invariant(s: State) {
    && !s.fatal
    && (s.holder.Some? ==> s.holder.value in s.threads)
    && (s.current.Some? ==> s.current.value in s.threads)
    && forall t :: t in s.threads ==>
         && Local(t, s.threads[t])
         && (Holds(s.threads[t]) <==> s.holder == Some(t))
         && (IsCurrent(s.threads[t]) <==> s.current == Some(t))
  }

  lemma InitInvariant(ids: set<Tid>)
    ensures Invariant(Init(ids))
  {
  }

  /** A step of thread t hands the lock and the current thread state to t, takes them from t, or leaves them. */
  ghost predicate Hands(t: Tid, before: Option<Tid>, after: Option<Tid>) {
    after == before || (before == None && after == Some(t)) || (before == Some(t) && after == None)
  }

  lemma UpdateInvariant(s: State, t: Tid, s': State)
    requires Invariant(s) && t in s.threads && t in s'.threads && s'.threads == s.threads[t := s'.threads[t]]
    requires !s'.fatal && Hands(t, s.holder, s'.holder) && Hands(t, s.current, s'.current)
    requires var th := s'.threads[t];
             Local(t, th) && (Holds(th) <==> s'.holder == Some(t)) && (IsCurrent(th) <==> s'.current == Some(t))
    ensures Invariant(s')
  {
    hide Local; hide Holds; hide IsCurrent;
    forall u | u in s'.threads
      ensures Local(u, s'.threads[u]) && (Holds(s'.threads[u]) <==> s'.holder == Some(u))
              && (IsCurrent(s'.threads[u]) <==> s'.current == Some(u))
    {
      if u != t { assert s'.threads[u] == s.threads[u]; }
    }
  }

  /** What one step does to the stepping thread itself. */
  ghost predicate GoodStep(s: State, t: Tid, s': State)
    requires t in s.threads
  {
    && t in s'.threads && s'.threads == s.threads[t := s'.threads[t]]
    && !s'.fatal && Hands(t, s.holder, s'.holder) && Hands(t, s.current, s'.current)
    && var th := s'.threads[t];
       Local(t, th) && (Holds(th) <==> s'.holder == Some(t)) && (IsCurrent(th) <==> s'.current == Some(t))
  }

  ghost predicate Entry(s: State, t: Tid) {
    && t in s.threads && Local(t, s.threads[t])
    && (Holds(s.threads[t]) <==> s.holder == Some(t))
    && (IsCurrent(s.threads[t]) <==> s.current == Some(t))
    // nobody else's state is current while t has the lock
    && (s.holder == Some(t) && !IsCurrent(s.threads[t]) ==> s.current == None)
  }

  lemma LockedMeansMine(s: State, t: Tid)
    requires Invariant(s) && t in s.threads
    ensures Entry(s, t)
  {
    if s.holder == Some(t) && s.current.Some? {
      var u := s.current.value;
      assert IsCurrent(s.threads[u]) ==> Holds(s.threads[u]);
    }
  }

  lemma OwnStep(s: State, t: Tid, a: Action)
    requires Entry(s, t) && !s.fatal && Enabled(s, t, a)
    ensures GoodStep(s, t, Step(s, t, a))
  {
  }

  /** Every step of every thread keeps the invariant: in particular no fatal error is ever raised. */
  lemma StepInvariant(s: State, t: Tid, a: Action)
    requires Invariant(s) && Enabled(s, t, a)
    ensures Invariant(Step(s, t, a))
  {
    LockedMeansMine(s, t);
    OwnStep(s, t, a);
    hide Step; hide Local; hide Holds; hide IsCurrent;
    UpdateInvariant(s, t, Step(s, t, a));
  }

  // ----- pending errors

  /** The thread has no native activation, or is just entering or leaving its outermost one. */
  predicate Outside(th: Thread) {
    th.stack == Bottom || (th.stack.below == Bottom && th.pc in {Entering, Entered, Leaving})
  }

  ghost predicate ErrorInvariant(s: State) {
    && NoDuplicates(s.handed)
    && (forall e :: e in s.handed ==> e in s.raised)
    && (forall t :: t in s.threads && s.threads[t].err.Some? ==>
          s.threads[t].err.value in s.raised && s.threads[t].err.value !in s.handed)
    && (forall t, u :: t in s.threads && u in s.threads && s.threads[t].err.Some? && t != u ==>
          s.threads[t].err != s.threads[u].err)
    && (forall t :: t in s.threads && Outside(s.threads[t]) ==> s.threads[t].err == None)
  }

  /** How a step of t may change errors: not at all, t's error dropped, a new error raised, or t's error handed
      to Java and dropped. */
  ghost predicate ErrorStep(s: State, t: Tid, s': State)
    requires t in s.threads
  {
    && t in s'.threads && s'.threads == s.threads[t := s'.threads[t]]
    && var e, e' := s.threads[t].err, s'.threads[t].err;
       || (s'.raised == s.raised && s'.handed == s.handed && (e' == e || e' == None))
       || (e'.Some? && e'.value !in s.raised && s'.raised == s.raised + {e'.value} && s'.handed == s.handed)
       || (e.Some? && e' == None && s'.raised == s.raised && s'.handed == s.handed + [e.value])
  }

  lemma StepErrors(s: State, t: Tid, a: Action)
    requires Enabled(s, t, a) && !Step(s, t, a).fatal
    ensures ErrorStep(s, t, Step(s, t, a))
  {
    assert s.threads == s.threads[t := s.threads[t]];
  }

  lemma OutsideStaysClean(s: State, t: Tid, a: Action)
    requires Enabled(s, t, a) && !Step(s, t, a).fatal && Local(t, s.threads[t])
    requires IsCurrent(s.threads[t]) <==> s.current == Some(t)
    requires Outside(s.threads[t]) ==> s.threads[t].err == None
    ensures Outside(Step(s, t, a).threads[t]) ==> Step(s, t, a).threads[t].err == None
  {
  }

  lemma InvariantAt(s: State, t: Tid)
    requires Invariant(s) && t in s.threads
    ensures Local(t, s.threads[t])
    ensures Holds(s.threads[t]) <==> s.holder == Some(t)
    ensures IsCurrent(s.threads[t]) <==> s.current == Some(t)
  {
  }

  lemma ErrorStepKeeps(s: State, t: Tid, s': State)
    requires t in s.threads && ErrorInvariant(s) && ErrorStep(s, t, s')
    requires Outside(s'.threads[t]) ==> s'.threads[t].err == None
    ensures ErrorInvariant(s')
  {
    hide Outside;
    assert forall u :: u in s'.threads && u != t ==> s'.threads[u] == s.threads[u];
  }

  // ----- runs

  datatype Event = Event(t: Tid, a: Action)

  predicate EnabledRun(s: State, es: seq<Event>)
    decreases |es|
  {
    es == [] || (Enabled(s, es[0].t, es[0].a) && EnabledRun(Step(s, es[0].t, es[0].a), es[1..]))
  }

  function Run(s: State, es: seq<Event>): State
    requires EnabledRun(s, es)
    decreases |es|
  {
    if es == [] then s else Run(Step(s, es[0].t, es[0].a), es[1..])
  }

  /** What holds in every state of every run, of any threads and any interleaving. */
  ghost predicate Good(s: State) { Invariant(s) && ErrorInvariant(s) }

  lemma StepGood(s: State, t: Tid, a: Action)
    requires Good(s) && Enabled(s, t, a)
    ensures Good(Step(s, t, a))
  {
    StepInvariant(s, t, a);
    StepErrors(s, t, a);
    InvariantAt(s, t);
    OutsideStaysClean(s, t, a);
    hide Step; hide Outside; hide Invariant;
    ErrorStepKeeps(s, t, Step(s, t, a));
  }

  lemma {:induction false} RunGood(s: State, es: seq<Event>)
    requires Good(s) && EnabledRun(s, es)
    ensures Good(Run(s, es))
    decreases |es|
  {
    if es != [] {
      StepGood(s, es[0].t, es[0].a);
      RunGood(Step(s, es[0].t, es[0].a), es[1..]);
    }
  }

  lemma ReachableGood(ids: set<Tid>, es: seq<Event>)
    requires EnabledRun(Init(ids), es)
    ensures Good(Run(Init(ids), es))
  {
    InitInvariant(ids);
    RunGood(Init(ids), es);
  }

  // ----- what follows

  /** The unlocked test is exact: for a thread in Java it is true just when that thread itself holds the lock
      through an unreleased call-out, and then no other thread is in native code. */
  lemma ReentryTestExact(s: State, t: Tid)
    requires Good(s) && t in s.threads && s.threads[t].pc == InJava
    ensures s.current == Some(t) <==> OutHeld(s.threads[t].stack)
    ensures s.current == Some(t) ==>
              s.holder == Some(t) && forall u :: u in s.threads && u != t ==> s.threads[u].pc != InNative
  {
    InvariantAt(s, t);
  }

  /** At most one thread is in native code or anywhere between acquiring and releasing the lock. */
  lemma MutualExclusion(s: State, t: Tid, u: Tid)
    requires Good(s) && t in s.threads && u in s.threads
    requires Holds(s.threads[t]) && Holds(s.threads[u])
    ensures t == u
  {
    InvariantAt(s, t);
    InvariantAt(s, u);
  }

  /** Neither fatal error of the protocol can be raised by any step. */
  lemma NeverFatal(s: State, t: Tid, a: Action)
    requires Good(s) && Enabled(s, t, a)
    ensures !Step(s, t, a).fatal
  {
    StepInvariant(s, t, a);
  }

  /** A leave gives up the current state, and so the lock, exactly when the matching entry had to take it:
      when the frames below do not hold it. */
  lemma LeaveReleasesIffTaken(s: State, t: Tid)
    requires Good(s) && Enabled(s, t, Leave)
    ensures var s' := Step(s, t, Leave);
            && (s'.current == None <==> !OutHeld(s.threads[t].stack.below))
            && (s'.threads[t].pc == Leaving <==> !OutHeld(s.threads[t].stack.below))
            && (OutHeld(s.threads[t].stack.below) ==> s'.holder == s.holder == Some(t) && s'.current == Some(t))
  {
    InvariantAt(s, t);
  }

  /** RE_ENTER_JyNI goes on at once, keeping the lock, exactly from an unreleased call-out, and the activation remembers
      which it was. */
  lemma ReEnterIff(s: State, t: Tid)
    requires Good(s) && Enabled(s, t, ReEnter)
    ensures var s' := Step(s, t, ReEnter); var below := s.threads[t].stack;
            && s'.holder == s.holder && s'.current == s.current && t in s'.threads
            && s'.threads[t].pc == (if OutHeld(below) then InNative else Entering)
            && s'.threads[t].stack == On(CallIn(OutHeld(below)), below)
  {
    InvariantAt(s, t);
  }

  /** What can go wrong, in any state: an entry finds another thread's state current, a call-out none. */
  lemma FatalIff(s: State, t: Tid, a: Action)
    requires Enabled(s, t, a)
    ensures Step(s, t, a).fatal <==> (a == SetCurrent && s.current != None) || (a == Save && s.current == None)
  {
  }

  /** The leave of t gives up the lock. */
  predicate LeavesLock(s: State, t: Tid, a: Action) {
    a == Leave && t in s.threads && s.threads[t].stack.On? && !OutHeld(s.threads[t].stack.below)
  }

  /** Errors change by raising and clearing, and by the leave that gives up the lock: that one hands the pending error to
      Java, and then the thread has none. The leave of an activation entered from an unreleased call-out keeps it for the
      native code below. */
  lemma ErrorsChangeOnlyBy(s: State, t: Tid, a: Action, u: Tid)
    requires Good(s) && Enabled(s, t, a) && u in s.threads
    ensures var s' := Step(s, t, a); var e := s.threads[t].err;
            && u in s'.threads
            && s'.threads[u].err == (if u != t then s.threads[u].err
                                     else if a.Raise? then Some(a.e)
                                     else if a == ClearError || LeavesLock(s, t, a) then None
                                     else e)
            && s'.handed == s.handed + (if LeavesLock(s, t, a) && e != None then [e.value] else [])
            && s'.raised == s.raised + (if a.Raise? then {a.e} else {})
  {
    NeverFatal(s, t, a);
    InvariantAt(s, t);
  }

  /** Whatever happens in between, back in Java with the same frames a thread finds what it left: the lock and
      the current state are its own again, or not its own again. */
  lemma NestingRestores(s: State, es: seq<Event>, t: Tid)
    requires Good(s) && EnabledRun(s, es) && t in s.threads && t in Run(s, es).threads
    requires s.threads[t].pc == InJava && Run(s, es).threads[t].pc == InJava
    requires Run(s, es).threads[t].stack == s.threads[t].stack
    ensures Run(s, es).current == Some(t) <==> s.current == Some(t)
    ensures Run(s, es).holder == Some(t) <==> s.holder == Some(t)
  {
    RunGood(s, es);
    InvariantAt(s, t);
    InvariantAt(Run(s, es), t);
  }

  /** An outermost entry starts without a pending error. */
  lemma OutermostEntryClean(s: State, t: Tid)
    requires Good(s) && Enabled(s, t, SetCurrent) && s.threads[t].stack.On? && s.threads[t].stack.below == Bottom
    ensures Step(s, t, SetCurrent).threads[t].pc == InNative && Step(s, t, SetCurrent).threads[t].err == None
  {
    NeverFatal(s, t, SetCurrent);
  }

  // ----- an error is handed to Java exactly once

  function Count(xs: seq<Err>, e: Err): nat {
    if xs == [] then 0 else Count(xs[..|xs| - 1], e) + if xs[|xs| - 1] == e then 1 else 0
  }

  lemma {:induction false} CountOnce(xs: seq<Err>, e: Err)
    requires NoDuplicates(xs)
    ensures Count(xs, e) == if e in xs then 1 else 0
    decreases |xs|
  {
    if xs != [] {
      assert xs == xs[..|xs| - 1] + [xs[|xs| - 1]];
      CountOnce(xs[..|xs| - 1], e);
    }
  }

  ghost predicate LeavesErrorAlone(es: seq<Event>, t: Tid) {
    forall i :: 0 <= i < |es| && es[i].t == t ==> !es[i].a.Raise? && es[i].a != ClearError
  }

  /** An error pending in a thread, neither cleared nor replaced by native code, stays pending until a leave
      hands it over. */
  lemma {:induction false} PendingOrHanded(s: State, es: seq<Event>, t: Tid, e: Err)
    requires Good(s) && EnabledRun(s, es) && t in s.threads && LeavesErrorAlone(es, t)
    requires s.threads[t].err == Some(e) || e in s.handed
    ensures var s' := Run(s, es); t in s'.threads && (s'.threads[t].err == Some(e) || e in s'.handed)
    decreases |es|
  {
    if es != [] {
      var s1 := Step(s, es[0].t, es[0].a);
      StepGood(s, es[0].t, es[0].a);
      HandedGrows(s, es[0].t, es[0].a, t, e);
      PendingOrHanded(s1, es[1..], t, e);
    }
  }

  lemma HandedGrows(s: State, u: Tid, a: Action, t: Tid, e: Err)
    requires Good(s) && Enabled(s, u, a) && t in s.threads
    requires u == t ==> !a.Raise? && a != ClearError
    requires s.threads[t].err == Some(e) || e in s.handed
    ensures var s' := Step(s, u, a); t in s'.threads && (s'.threads[t].err == Some(e) || e in s'.handed)
  {
    NeverFatal(s, u, a);
  }

  /** By the time the thread is outside native code again, Java has received the error exactly once. */
  lemma ErrorHandedExactlyOnce(s: State, es: seq<Event>, t: Tid, e: Err)
    requires Good(s) && EnabledRun(s, es) && t in s.threads && LeavesErrorAlone(es, t)
    requires s.threads[t].err == Some(e)
    requires t in Run(s, es).threads && Outside(Run(s, es).threads[t])
    ensures Count(Run(s, es).handed, e) == 1
  {
    RunGood(s, es);
    PendingOrHanded(s, es, t, e);
    CountOnce(Run(s, es).handed, e);
  }

  // ----- limits of the protocol

  /** A plain ENTER_JyNI, or the bare lock, asked for by a thread that already holds the lock. */
  predicate SelfBlocked(th: Thread) { th.pc in {Entering, BareWaiting} && OutHeld(Below(th)) }

  /** Such a thread never proceeds, in any continuation: the lock is not re-entrant. */
  lemma {:induction false} SelfBlockedForever(s: State, es: seq<Event>, t: Tid)
    requires Good(s) && EnabledRun(s, es) && t in s.threads && SelfBlocked(s.threads[t])
    ensures t in Run(s, es).threads && Run(s, es).threads[t] == s.threads[t]
    decreases |es|
  {
    if es != [] {
      InvariantAt(s, t);
      InvariantAt(s, es[0].t);
      StepGood(s, es[0].t, es[0].a);
      SelfBlockedForever(Step(s, es[0].t, es[0].a), es[1..], t);
    }
  }

  function Events(t: Tid, actions: seq<Action>): seq<Event> {
    seq(|actions|, i requires 0 <= i < |actions| => Event(t, actions[i]))
  }

  /** These actions of t lead from s to z. */
  predicate Leads(s: State, t: Tid, actions: seq<Action>, z: State) {
    EnabledRun(s, Events(t, actions)) && Run(s, Events(t, actions)) == z
  }

  lemma LeadsOn(s: State, t: Tid, a: Action, s1: State, rest: seq<Action>, z: State)
    requires Enabled(s, t, a) && Step(s, t, a) == s1 && Leads(s1, t, rest, z)
    ensures Leads(s, t, [a] + rest, z)
  {
    assert Events(t, [a] + rest) == [Event(t, a)] + Events(t, rest);
    RunsOn(s, t, a, Events(t, rest));
  }

  lemma LeadsNowhere(s: State, t: Tid)
    ensures Leads(s, t, [], s)
  {
    assert Events(t, []) == [];
  }

  /** One thread, which holds the lock and is current. */
  function Alone(t: Tid, th: Thread, raised: set<Err>): State { State(Some(t), Some(t), map[t := th], false, raised, []) }

  const FIRST: Stack := On(CallIn(false), Bottom)

  lemma FirstSteps(t: Tid, s1: State, s2: State, s3: State)
    requires s3 == Alone(t, Thread(InNative, FIRST, None), {})
    requires s2 == State(Some(t), None, map[t := Thread(Entered, FIRST, None)], false, {}, [])
    requires s1 == State(None, None, map[t := Thread(Entering, FIRST, None)], false, {}, [])
    ensures Enabled(Init({t}), t, Enter) && Step(Init({t}), t, Enter) == s1
    ensures Enabled(s1, t, Acquire) && Step(s1, t, Acquire) == s2
    ensures Enabled(s2, t, SetCurrent) && Step(s2, t, SetCurrent) == s3
  {
  }

  lemma FirstEntry(t: Tid, rest: seq<Action>, z: State)
    requires Leads(Alone(t, Thread(InNative, FIRST, None), {}), t, rest, z)
    ensures Leads(Init({t}), t, [Enter, Acquire, SetCurrent] + rest, z)
  {
    var s3 := Alone(t, Thread(InNative, FIRST, None), {});
    var s2 := State(Some(t), None, map[t := Thread(Entered, FIRST, None)], false, {}, []);
    var s1 := State(None, None, map[t := Thread(Entering, FIRST, None)], false, {}, []);
    FirstSteps(t, s1, s2, s3);
    hide Step; hide Leads; hide Enabled; hide Init;
    LeadsOn(s2, t, SetCurrent, s3, rest, z);
    LeadsOn(s1, t, Acquire, s2, [SetCurrent] + rest, z);
    LeadsOn(Init({t}), t, Enter, s1, [Acquire] + ([SetCurrent] + rest), z);
    assert [Enter] + ([Acquire] + ([SetCurrent] + rest)) == [Enter, Acquire, SetCurrent] + rest;
  }

  /** A thread that entered, called out without releasing the lock and asks for it once more. */
  function Blocked(t: Tid, waiting: Action): State {
    var out := On(CallOut(None), FIRST);
    Alone(t, if waiting.Bare? then Thread(BareWaiting, out, None) else Thread(Entering, On(CallIn(false), out), None), {})
  }

  /** Both kinds of self-blocked threads are reached from the start, by five steps of one thread. */
  lemma SelfBlockedReached(t: Tid, waiting: Action)
    requires waiting in {Enter, Bare}
    ensures Leads(Init({t}), t, [Enter, Acquire, SetCurrent] + [CallOutHeld, waiting], Blocked(t, waiting))
    ensures SelfBlocked(Blocked(t, waiting).threads[t])
  {
    var s4 := Alone(t, Thread(InJava, On(CallOut(None), FIRST), None), {});
    var s5 := Blocked(t, waiting);
    assert Step(s4, t, waiting) == s5 && Step(Alone(t, Thread(InNative, FIRST, None), {}), t, CallOutHeld) == s4;
    hide Step; hide Leads;
    LeadsNowhere(s5, t);
    LeadsOn(s4, t, waiting, s5, [], s5);
    LeadsOn(Alone(t, Thread(InNative, FIRST, None), {}), t, CallOutHeld, s4, [waiting] + [], s5);
    assert [CallOutHeld] + ([waiting] + []) == [CallOutHeld, waiting];
    FirstEntry(t, [CallOutHeld, waiting], s5);
  }

  /** So is a thread in native code with a pending error, from where the next lemma goes on. */
  lemma PendingErrorReached(t: Tid, e: Err)
    ensures Leads(Init({t}), t, [Enter, Acquire, SetCurrent] + [Raise(e)], Alone(t, Thread(InNative, FIRST, Some(e)), {e}))
  {
    var s4 := Alone(t, Thread(InNative, FIRST, Some(e)), {e});
    assert Step(Alone(t, Thread(InNative, FIRST, None), {}), t, Raise(e)) == s4;
    hide Step; hide Leads;
    LeadsNowhere(s4, t);
    LeadsOn(Alone(t, Thread(InNative, FIRST, None), {}), t, Raise(e), s4, [], s4);
    assert [Raise(e)] + [] == [Raise(e)];
    FirstEntry(t, [Raise(e)], s4);
  }

  /** Five steps of one thread: it releases the lock around a call-out and enters again from there. */
  ghost predicate Reenters(s: State, t: Tid, e: Err) {
    Enabled(s, t, Save) &&
    var s1 := Step(s, t, Save);
    Enabled(s1, t, SaveRelease) &&
    var s2 := Step(s1, t, SaveRelease);
    Enabled(s2, t, ReEnter) &&
    var s3 := Step(s2, t, ReEnter);
    Enabled(s3, t, Acquire) &&
    var s4 := Step(s3, t, Acquire);
    Enabled(s4, t, SetCurrent) &&
    var s5 := Step(s4, t, SetCurrent);
    t in s5.threads && s5.threads[t].pc == InNative && s5.threads[t].err == Some(e)
  }

  lemma ReentersWithError(s: State, t: Tid, e: Err)
    requires t in s.threads && s.threads[t].pc == InNative && s.threads[t].err == Some(e) && !s.fatal
    requires s.current == Some(t)
    ensures Reenters(s, t, e)
  {
  }

  /** An inner entry can start with a pending error: whenever native code with one releases the lock around a call-out
      and Java code called there enters again, the error is still pending. */
  lemma InnerEntrySeesError(s: State, t: Tid, e: Err)
    requires Good(s) && t in s.threads && s.threads[t].pc == InNative && s.threads[t].err == Some(e)
    ensures var es := [Event(t, Save), Event(t, SaveRelease), Event(t, ReEnter), Event(t, Acquire), Event(t, SetCurrent)];
            && EnabledRun(s, es) && t in Run(s, es).threads
            && Run(s, es).threads[t].pc == InNative && Run(s, es).threads[t].err == Some(e)
  {
    InvariantAt(s, t);
    ReentersWithError(s, t, e);
    hide Step; hide Enabled; hide Good; hide EnabledRun; hide Run;
    var s1 := Step(s, t, Save);
    var s2 := Step(s1, t, SaveRelease);
    var s3 := Step(s2, t, ReEnter);
    var s4 := Step(s3, t, Acquire);
    RunEmpty(Step(s4, t, SetCurrent));
    RunsOn(s4, t, SetCurrent, []);
    RunsOn(s3, t, Acquire, [Event(t, SetCurrent)]);
    RunsOn(s2, t, ReEnter, [Event(t, Acquire), Event(t, SetCurrent)]);
    RunsOn(s1, t, SaveRelease, [Event(t, ReEnter), Event(t, Acquire), Event(t, SetCurrent)]);
    RunsOn(s, t, Save, [Event(t, SaveRelease), Event(t, ReEnter), Event(t, Acquire), Event(t, SetCurrent)]);
    assert [Event(t, SetCurrent)] + [] == [Event(t, SetCurrent)];
    assert [Event(t, Acquire)] + [Event(t, SetCurrent)] == [Event(t, Acquire), Event(t, SetCurrent)];
  }

  lemma RunEmpty(s: State)
    ensures EnabledRun(s, []) && Run(s, []) == s
  {
  }

  lemma RunsOn(s: State, t: Tid, a: Action, rest: seq<Event>)
    requires Enabled(s, t, a) && EnabledRun(Step(s, t, a), rest)
    ensures EnabledRun(s, [Event(t, a)] + rest) && Run(s, [Event(t, a)] + rest) == Run(Step(s, t, a), rest)
  {
    assert ([Event(t, a)] + rest)[1..] == rest;
  }
}
