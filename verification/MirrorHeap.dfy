/** Headers and handles as the program updates them: field by field, in the order of its statements. Each method is
    proved to take the step of Mirror that stands for it. */
module MirrorHeaps {
  import opened Basics
  import opened Mirror
  import opened MirrorRuns

  class MirrorHeap {
    var natives: map<NId, Header>
    var alive: set<JId>
    var used: set<JId>
    var pinned: set<JId>
    var handle: map<JId, NId>
    var peers: set<JId>
    ghost var early: map<NId, JId>
    ghost var late: multiset<JId>
    ghost var toJava: multiset<NId>
    ghost var fault: bool
    ghost var stale: bool

    ghost function View(): State
      reads this
    {
      State(natives, alive, used, pinned, handle, peers, early, late, toJava, fault, stale)
    }

    constructor ()
      ensures View() == Init()
    {
      natives, alive, used, pinned, handle, peers := map[], {}, {}, {}, map[], {};
      early, late, toJava, fault, stale := map[], multiset{}, multiset{}, false, false;
    }

    /** NewLocalRef of the header's weak reference: the Java object, if it is alive. */
    method NewLocalRef(n: NId) returns (found: bool, j: JId)
      requires n in natives
      modifies this`fault
      ensures View() == old(View()).(fault := old(fault) || !natives[n].jy.WeakTo?)
      ensures found <==> natives[n].jy.WeakTo? && natives[n].jy.j in alive
      ensures found ==> j == natives[n].jy.j
    {
      found, j := false, 0;
      if natives[n].jy.WeakTo? {
        found, j := natives[n].jy.j in alive, natives[n].jy.j;
      } else {
        fault := true;
      }
    }

    method SetFlag(n: NId, flag: Flag)
      requires n in natives
      modifies this`natives
      ensures View() == old(View()).(natives := old(natives)[n := old(natives)[n].(flags := old(natives)[n].flags + {flag})])
    {
      natives := natives[n := natives[n].(flags := natives[n].flags + {flag})];
    }

    method CleanUpJyObject(n: NId)
      requires n in natives
      modifies this
      ensures View() == CleanUp(old(View()), n)
    {
      if natives[n].jy != NoRef && Initialized in natives[n].flags {
        var found, j := NewLocalRef(n);
        if HasHandle in natives[n].flags && found {
          handle := handle - {j};
        }
        natives := natives[n := natives[n].(flags := {})];
        natives := natives[n := natives[n].(jy := NoRef)];
      }
    }

    /** Py_DECREF. */
    method Decref(n: NId)
      requires n in natives
      modifies this
      ensures View() == Release(old(View()), n)
    {
      natives := natives[n := natives[n].(refs := natives[n].refs - 1)];
      if natives[n].refs == 0 {
        CleanUpJyObject(n);
        natives := natives - {n};
        FreedAt(old(View()), n);
      }
    }

    method GiveUpPeer(j: JId, n: NId)
      requires n in natives
      modifies this
      ensures View() == WithoutPeer(old(View()), j, n) && n in natives
    {
      alive, handle, peers := alive - {j}, handle - {j}, peers - {j};
      natives := natives[n := natives[n].(peerRefs := natives[n].peerRefs - 1)];
    }

    /** DeleteWeakGlobalRef on the header's field. */
    method DeleteWeakGlobalRef(n: NId)
      modifies this
      ensures View() == DeleteReference(old(View()), n)
    {
      if n in natives {
        fault := fault || !natives[n].jy.WeakTo?;
        natives := natives[n := natives[n].(jy := Deleted)];
      } else {
        stale := true;
      }
    }

    /** JyNI_clearPyCPeer for the peer j of n. */
    method ClearPyCPeer(j: JId, n: NId)
      requires n in natives
      modifies this
      ensures View() == ClearPeer(old(View()), j, n)
    {
      hide Release;
      hide WithoutPeer;
      hide DeleteReference;
      GiveUpPeer(j, n);
      Decref(n);
      DeleteWeakGlobalRef(n);
    }

    /** The weak reference first, the flag INITIALIZED last. */
    method FinishInit(j: JId, n: NId)
      requires n in natives
      modifies this
      ensures View() == InitJy(old(View()), j, n)
    {
      natives := natives[n := natives[n].(jy := WeakTo(j))];
      if HasHandle !in natives[n].flags {
        handle := handle[j := n];
        SetFlag(n, HasHandle);
      }
      SetFlag(n, Initialized);
      ghost var h := old(natives)[n];
      assert natives[n].flags == h.flags + {Initialized, HasHandle};
      assert natives == old(natives)[n := natives[n]];
    }

    method NewCPeer(n: NId, j: JId)
      requires n in natives
      modifies this
      ensures View() == InitPeer(old(View()), n, j)
    {
      natives := natives[n := natives[n].(refs := natives[n].refs + 1, peerRefs := natives[n].peerRefs + 1)];
      handle, peers := handle[j := n], peers + {j};
      SetFlag(n, Initialized);
      SetFlag(n, CPeer);
      natives := natives[n := natives[n].(jy := WeakTo(j))];
      PeerHeader(old(View()), View(), n, j);
    }

    /** The part of JyNI_JythonPyObject_FromPyObject before an object is created: the live counterpart if there is
        one; otherwise the header is cleaned up and the type-map entry taken from it. */
    method LiveCounterpart(n: NId) returns (found: bool, j: JId)
      requires n in natives && Tagged(natives[n]) && (Unchecked(View(), n) ==> Hit(View(), n))
      modifies this
      ensures found <==> old(Hit(View(), n))
      ensures found ==> View() == old(View()) && j == natives[n].jy.j
      ensures !found ==> View() == MissJava(old(View()), n)
    {
      found, j := false, 0;
      if Initialized in natives[n].flags {
        found, j := NewLocalRef(n);
        if Eternal in natives[n].flags { return; }
        if found { return; }
        CleanUpJyObject(n);
      }
      fault := fault || (natives[n].jy != NoRef && natives[n].jy != TypeEntry);
      toJava := toJava + multiset{n};
    }

    /** JyNI_InitJythonPyObject or a new PyCPeer. */
    method CreateCounterpart(n: NId, j: JId)
      requires Enabled(View(), EndJava(n, j))
      modifies this
      ensures View() == Step(old(View()), EndJava(n, j))
    {
      EndJavaSteps(View(), n, j);
      hide InitJy;
      hide InitPeer;
      hide Step;
      alive, used := alive + {j}, used + {j};
      toJava := toJava - multiset{n};
      if natives[n].typed { FinishInit(j, n); } else { NewCPeer(n, j); }
    }

    /** The same when the constructor returns an existing Java object. */
    method TakeCounterpart(n: NId, j: JId)
      requires Enabled(View(), ShareJava(n, j))
      modifies this
      ensures View() == Step(old(View()), ShareJava(n, j))
    {
      hide InitJy;
      toJava := toJava - multiset{n};
      FinishInit(j, n);
    }

    method Incref(n: NId)
      requires n in natives
      modifies this`natives
      ensures View() == TakeReference(old(View()), n)
    {
      natives := natives[n := natives[n].(refs := natives[n].refs + 1)];
    }

    /** Conversion to native of an object with a handle: the header is read and the count taken, object or no object. */
    method TakeHandle(j: JId) returns (n: NId)
      requires j in handle
      modifies this
      ensures n == old(handle)[j]
      ensures View() == if Exists(old(View()), j) then TakeReference(old(View()), n) else old(View()).(stale := true)
    {
      n := handle[j];
      if n in natives { Incref(n); } else { stale := true; }
    }

    method SetNativeHandle(j: JId, n: NId)
      requires n in natives
      modifies this
      ensures View() == Register(old(View()), j, n)
    {
      handle := handle[j := n];
      SetFlag(n, HasHandle);
    }

    /** JyNI_InitPyObject for an empty tuple that exists already: PyTuple_New(0) hands it out once more. */
    method InitSharedTuple(j: JId, n: NId)
      requires Enabled(View(), ShareTuple(j, n))
      modifies this
      ensures View() == Step(old(View()), ShareTuple(j, n))
    {
      hide InitJy;
      hide Register;
      hide TakeReference;
      SharedTupleSteps(View(), j, n);
      Incref(n);
      SetNativeHandle(j, n);
      FinishInit(j, n);
    }

    /** JyNI_InitPyObject for a small int, a one-letter string and the like. */
    method InitSharedValue(j: JId, n: NId)
      requires Enabled(View(), ShareLate(j, n))
      modifies this
      ensures View() == Step(old(View()), ShareLate(j, n))
    {
      SharedValueSteps(View(), j, n);
      hide InitJy;
      hide Step;
      Incref(n);
      if j in pinned { SetFlag(n, Eternal); }
      late := late - multiset{j};
      FinishInit(j, n);
    }

    /** JyNI_JythonPyObject_FromPyObject where creating the counterpart converts nothing else; `next` is the object
        the Java constructor returns if it is called, new or not. The mirror relation is kept exactly if that object
        has no native counterpart yet. */
    method JythonFromPy(n: NId, next: JId) returns (j: JId)
      requires Good(View()) && Idle(View(), n) && Yields(View(), n, next)
      modifies this
      ensures (View(), j) == ToJava(old(View()), n, next)
      ensures Mirrored(View(), n, j) && j in alive
      ensures Good(View()) <==> old(Hit(View(), n)) || next !in old(handle)
    {
      ToJavaGood(View(), n, next);
      IsTagged(View(), n);
      ghost var s0 := View();
      if !Hit(s0, n) { ToJavaSteps(s0, n, next); }
      if Unchecked(s0, n) { UncheckedLives(s0, n); }
      hide Good;
      hide MissJava;
      hide Mirrored;
      hide Step;
      var found;
      found, j := LiveCounterpart(n);
      if !found {
        j := next;
        if next !in used { CreateCounterpart(n, j); } else { TakeCounterpart(n, j); }
      }
    }
  }

  lemma SharedValueSteps(s: State, j: JId, n: NId)
    requires Enabled(s, ShareLate(j, n))
    ensures var s1 := TakeReference(s, n); var h := s1.natives[n];
            var s2 := if j in s.pinned then s1.(natives := s1.natives[n := h.(flags := h.flags + {Eternal})]) else s1;
            n in s2.natives && Step(s, ShareLate(j, n)) == InitJy(s2.(late := s2.late - multiset{j}), j, n)
  {
    var s1 := TakeReference(s, n);
    assert s1.natives[n].flags + {} == s1.natives[n].flags;
    assert j !in s.pinned ==> Marked(s1, n, Marks(s, j)).natives == s1.natives;
  }

  lemma PeerHeader(s: State, s': State, n: NId, j: JId)
    requires n in s.natives && n in s'.natives
    requires var h := s.natives[n];
             s'.natives == s.natives[n := s'.natives[n]]
             && s'.natives[n] == h.(jy := WeakTo(j), flags := h.flags + {Initialized} + {CPeer}, refs := h.refs + 1,
                                    peerRefs := h.peerRefs + 1)
    requires s' == s.(natives := s'.natives, handle := s.handle[j := n], peers := s.peers + {j})
    ensures s' == InitPeer(s, n, j)
  {
    assert s.natives[n].flags + {Initialized} + {CPeer} == s.natives[n].flags + {Initialized, CPeer};
  }

  function WithJava(s: State, n: NId, j: JId): State {
    s.(alive := s.alive + {j}, used := s.used + {j}, toJava := s.toJava - multiset{n})
  }

  lemma EndJavaSteps(s: State, n: NId, j: JId)
    requires Enabled(s, EndJava(n, j))
    ensures Step(s, EndJava(n, j)) == if s.natives[n].typed then InitJy(WithJava(s, n, j), j, n) else InitPeer(WithJava(s, n, j), n, j)
  {
  }

  lemma MissIsStep(s: State, n: NId)
    requires Enabled(s, BeginJava(n))
    ensures Step(s, BeginJava(n)) == MissJava(s, n)
  {
  }

  lemma SharedTupleSteps(s: State, j: JId, n: NId)
    requires Enabled(s, ShareTuple(j, n))
    ensures n in TakeReference(s, n).natives && n in Register(TakeReference(s, n), j, n).natives
  {
  }

  /** The two ways to create a counterpart. */
  lemma ToJavaSteps(s: State, n: NId, next: JId)
    requires Good(s) && Idle(s, n) && Yields(s, n, next) && !Hit(s, n)
    ensures var s1 := MissJava(s, n);
            && s1.used == s.used
            && (next !in s.used ==> Enabled(s1, EndJava(n, next)) && ToJava(s, n, next) == (Step(s1, EndJava(n, next)), next))
            && (next in s.used ==> Enabled(s1, ShareJava(n, next)) && ToJava(s, n, next) == (Step(s1, ShareJava(n, next)), next))
  {
    BeginJavaLeaves(s, n);
    MissIsStep(s, n);
    PeersLeft(s, n);
    hide Good;
    hide MissJava;
  }

  lemma PeersLeft(s: State, n: NId)
    requires n in s.natives
    ensures MissJava(s, n).peers == s.peers
  {
  }

  /** An object is freed with its count at zero; cleaning up does not look at the count. */
  lemma FreedAt(s: State, n: NId)
    requires n in s.natives && s.natives[n].refs == 1
    ensures var z := CleanUp(s.(natives := s.natives[n := s.natives[n].(refs := 0)]), n);
            z.(natives := z.natives - {n}) == Release(s, n)
  {
    var z := CleanUp(s.(natives := s.natives[n := s.natives[n].(refs := 0)]), n);
    assert z.natives - {n} == CleanUp(s, n).natives - {n};
  }
}
