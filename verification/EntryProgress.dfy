/** Who gets the lock, and with which error an inner entry starts: the exact conditions behind the limits of the entry
    protocol. */
module EntryProgress {
  import opened Basics
  import opened EntryLock

  // ----- waiting for the lock

  predicate Waiting(th: Thread) { th.pc in {Entering, BareWaiting, Restoring} }

  /** The step by which a waiting thread takes the lock once it is free. */
  function Grant(th: Thread): Action
    requires Waiting(th)
  {
    match th.pc
    case Entering => Acquire
    case BareWaiting => BareAcquire
    case _ => RestoreAcquire
  }

  /** Some continuation grants t the lock. */
  ghost predicate CanProceed(s: State, t: Tid) {
    exists es :: EnabledRun(s, es) && t in Run(s, es).threads && !Waiting(Run(s, es).threads[t])
  }

  /** The lock is held by a thread that waits for it itself. */
  predicate Stuck(s: State) { s.holder.Some? && s.holder.value in s.threads && SelfBlocked(s.threads[s.holder.value]) }

  // ----- a stuck lock stays stuck

  lemma StuckStep(s: State, u: Tid, a: Action)
    requires Good(s) && Stuck(s) && Enabled(s, u, a)
    ensures var s' := Step(s, u, a);
            && Stuck(s') && s'.holder == s.holder
            && forall t :: t in s.threads && Waiting(s.threads[t]) ==> t in s'.threads && s'.threads[t] == s.threads[t]
  {
    InvariantAt(s, u);
    InvariantAt(s, s.holder.value);
  }

  lemma {:induction false} StuckForever(s: State, es: seq<Event>, t: Tid)
    requires Good(s) && Stuck(s) && EnabledRun(s, es) && t in s.threads && Waiting(s.threads[t])
    ensures t in Run(s, es).threads && Run(s, es).threads[t] == s.threads[t]
    decreases |es|
  {
    if es != [] {
      StepGood(s, es[0].t, es[0].a);
      StuckStep(s, es[0].t, es[0].a);
      hide Good; hide Step; hide Enabled;
      StuckForever(Step(s, es[0].t, es[0].a), es[1..], t);
    }
  }

  // ----- every other holder can free it

  lemma {:induction false} RunsThen(s: State, es: seq<Event>, fs: seq<Event>)
    requires EnabledRun(s, es) && EnabledRun(Run(s, es), fs)
    ensures EnabledRun(s, es + fs) && Run(s, es + fs) == Run(Run(s, es), fs)
    decreases |es|
  {
    if es == [] {
      assert es + fs == fs;
    } else {
      RunsThen(Step(s, es[0].t, es[0].a), es[1..], fs);
      assert (es + fs)[1..] == es[1..] + fs;
    }
  }

  ghost predicate OthersSame(s: State, z: State, h: Tid) {
    forall t :: t in s.threads && t != h ==> t in z.threads && z.threads[t] == s.threads[t]
  }

  lemma OthersStay(s: State, h: Tid, a: Action)
    requires Enabled(s, h, a)
    ensures OthersSame(s, Step(s, h, a), h)
  {
  }

  /** h can free the lock by these steps of its own. */
  ghost predicate Frees(s: State, h: Tid, actions: seq<Action>, z: State) {
    Leads(s, h, actions, z) && z.holder == None && !z.fatal && OthersSame(s, z, h)
  }

  lemma FreesOn(s: State, h: Tid, a: Action, actions: seq<Action>, z: State)
    requires Enabled(s, h, a) && Frees(Step(s, h, a), h, actions, z)
    ensures Frees(s, h, [a] + actions, z)
  {
    OthersStay(s, h, a);
    LeadsOn(s, h, a, Step(s, h, a), actions, z);
  }

  lemma LastStep(s: State, h: Tid, a: Action)
    requires Enabled(s, h, a) && Step(s, h, a).holder == None && !Step(s, h, a).fatal
    ensures Frees(s, h, [a] + [], Step(s, h, a))
  {
    OthersStay(s, h, a);
    LeadsNowhere(Step(s, h, a), h);
    LeadsOn(s, h, a, Step(s, h, a), [], Step(s, h, a));
  }

  /** Out of native code: a call-out that releases the lock. */
  lemma FreesFromNative(s: State, h: Tid) returns (actions: seq<Action>, z: State)
    requires Good(s) && h in s.threads && s.threads[h].pc == InNative
    ensures Frees(s, h, actions, z)
  {
    InvariantAt(s, h);
    var s1 := Step(s, h, Save);
    assert Enabled(s1, h, SaveRelease) && Step(s1, h, SaveRelease).holder == None && !Step(s1, h, SaveRelease).fatal;
    hide Step; hide Enabled; hide Frees;
    LastStep(s1, h, SaveRelease);
    FreesOn(s, h, Save, [SaveRelease] + [], Step(s1, h, SaveRelease));
    actions, z := [Save] + ([SaveRelease] + []), Step(s1, h, SaveRelease);
  }

  /** The next step of a holder on its way into native code or out of the lock. */
  function Next(th: Thread): Action {
    match th.pc
    case Leaving => Release
    case Saving => SaveRelease
    case BareHolding => BareRelease
    case Entered => SetCurrent
    case Restored => RestoreSet
    case _ => ReturnHeld
  }

  lemma HolderMoves(s: State, h: Tid)
    requires Good(s) && h in s.threads && s.holder == Some(h) && !SelfBlocked(s.threads[h]) && s.threads[h].pc != InNative
    ensures Enabled(s, h, Next(s.threads[h])) && !Step(s, h, Next(s.threads[h])).fatal
    ensures var s1 := Step(s, h, Next(s.threads[h]));
            s1.holder == None || (h in s1.threads && s1.threads[h].pc == InNative)
  {
    InvariantAt(s, h);
    NeverFatal(s, h, Next(s.threads[h]));
  }

  lemma HolderFrees(s: State, h: Tid) returns (actions: seq<Action>, z: State)
    requires Good(s) && h in s.threads && s.holder == Some(h) && !SelfBlocked(s.threads[h])
    ensures Frees(s, h, actions, z)
  {
    if s.threads[h].pc == InNative {
      actions, z := FreesFromNative(s, h);
    } else {
      var a := Next(s.threads[h]);
      HolderMoves(s, h);
      StepGood(s, h, a);
      hide Step; hide Enabled; hide Frees; hide Good; hide SelfBlocked; hide Next;
      var s1 := Step(s, h, a);
      if s1.holder == None {
        LastStep(s, h, a);
        actions, z := [a] + [], s1;
      } else {
        actions, z := FreesFromNative(s1, h);
        FreesOn(s, h, a, actions, z);
        actions := [a] + actions;
      }
    }
  }

  lemma FreeIsGranted(s: State, t: Tid)
    requires s.holder == None && !s.fatal && t in s.threads && Waiting(s.threads[t])
    ensures var es := [Event(t, Grant(s.threads[t]))];
            EnabledRun(s, es) && t in Run(s, es).threads && !Waiting(Run(s, es).threads[t])
  {
    var e := Event(t, Grant(s.threads[t]));
    assert [e][1..] == [];
  }

  /** A thread that waits for the lock can get it exactly if the lock is not held by a thread that waits for it itself. */
  lemma CanProceedIff(s: State, t: Tid)
    requires Good(s) && t in s.threads && Waiting(s.threads[t])
    ensures CanProceed(s, t) <==> !Stuck(s)
  {
    if Stuck(s) {
      forall es | EnabledRun(s, es) ensures t in Run(s, es).threads && Waiting(Run(s, es).threads[t]) {
        StuckForever(s, es, t);
      }
    } else {
      assert !s.fatal && (s.holder.Some? ==> s.holder.value in s.threads);
      hide Good; hide EnabledRun; hide Run; hide SelfBlocked;
      if s.holder == None {
        FreeIsGranted(s, t);
      } else {
        FreedThenGranted(s, t);
      }
    }
  }

  lemma FreedThenGranted(s: State, t: Tid)
    requires Good(s) && t in s.threads && Waiting(s.threads[t]) && s.holder.Some? && s.holder.value in s.threads
    requires !SelfBlocked(s.threads[s.holder.value])
    ensures CanProceed(s, t)
  {
    var h := s.holder.value;
    var actions, z := HolderFrees(s, h);
    HolderNotWaiting(s, h);
    hide Good; hide EnabledRun; hide Run; hide SelfBlocked;
    FreeIsGranted(z, t);
    RunsThen(s, Events(h, actions), [Event(t, Grant(z.threads[t]))]);
  }

  lemma HolderNotWaiting(s: State, h: Tid)
    requires Good(s) && h in s.threads && s.holder == Some(h) && !SelfBlocked(s.threads[h])
    ensures !Waiting(s.threads[h])
  {
    InvariantAt(s, h);
  }

  // ----- the error an inner entry starts with

  /** t has released the lock around a call-out and has not been in native code since; `base` are the frames of the
      call-out. */
  predicate Away(th: Thread, t: Tid, base: Stack) {
    && base.On? && base.top == CallOut(Some(t))
    && if th.pc in {Entering, Entered} then th.stack == On(CallIn(false), base)
       else th.stack == base && th.pc in {Saving, InJava, BareWaiting, BareHolding, Restoring, Restored}
  }

  /** Steps that may take t back into native code. */
  predicate Arrives(a: Action) { a in {SetCurrent, RestoreSet} }

  lemma AwayStep(s: State, u: Tid, a: Action, t: Tid, base: Stack)
    requires Good(s) && Enabled(s, u, a) && t in s.threads && Away(s.threads[t], t, base)
    ensures t in Step(s, u, a).threads && Step(s, u, a).threads[t].err == s.threads[t].err
    ensures u == t && Arrives(a) ==> Step(s, u, a).threads[t].pc == InNative
    ensures !(u == t && Arrives(a)) ==> Away(Step(s, u, a).threads[t], t, base)
  {
    InvariantAt(s, t);
    NeverFatal(s, u, a);
  }

  /** The last event takes t into native code for the first time. */
  ghost predicate FirstArrival(es: seq<Event>, t: Tid) {
    && |es| > 0 && es[|es| - 1].t == t && Arrives(es[|es| - 1].a)
    && forall i :: 0 <= i < |es| - 1 && es[i].t == t ==> !Arrives(es[i].a)
  }

  lemma {:induction false} ErrorKept(s: State, es: seq<Event>, t: Tid, base: Stack)
    requires Good(s) && EnabledRun(s, es) && t in s.threads && Away(s.threads[t], t, base) && FirstArrival(es, t)
    ensures t in Run(s, es).threads && Run(s, es).threads[t].pc == InNative
    ensures Run(s, es).threads[t].err == s.threads[t].err
    decreases |es|
  {
    AwayStep(s, es[0].t, es[0].a, t, base);
    var s1 := Step(s, es[0].t, es[0].a);
    StepGood(s, es[0].t, es[0].a);
    hide Good; hide Step; hide Enabled; hide Away;
    if |es| == 1 {
      assert es[1..] == [];
    } else {
      assert forall i :: 0 <= i < |es[1..]| ==> es[1..][i] == es[i + 1];
      ErrorKept(s1, es[1..], t, base);
    }
  }

  lemma AfterSave(s: State, t: Tid)
    requires Good(s) && Enabled(s, t, Save)
    ensures var s1 := Step(s, t, Save);
            t in s1.threads && s1.threads[t].err == s.threads[t].err
            && Away(s1.threads[t], t, On(CallOut(Some(t)), s.threads[t].stack))
  {
    InvariantAt(s, t);
  }

  /** Whatever all threads do in between: the first entry from a call-out that released the lock, or the return from it,
      starts with an error exactly if one was pending when the lock was released, and then with that one. */
  lemma InnerEntryErrorIff(s: State, t: Tid, es: seq<Event>)
    requires Good(s) && EnabledRun(s, [Event(t, Save)] + es) && FirstArrival(es, t)
    ensures var z := Run(s, [Event(t, Save)] + es);
            && t in z.threads && z.threads[t].pc == InNative
            && (z.threads[t].err.Some? <==> s.threads[t].err.Some?) && z.threads[t].err == s.threads[t].err
  {
    assert ([Event(t, Save)] + es)[1..] == es;
    AfterSave(s, t);
    StepGood(s, t, Save);
    hide Good; hide Step; hide Enabled; hide Away;
    ErrorKept(Step(s, t, Save), es, t, On(CallOut(Some(t)), s.threads[t].stack));
  }
}
