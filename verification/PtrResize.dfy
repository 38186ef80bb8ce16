/** Re-insertion into a larger table (insert0 and resize_ptrTable of JyHash.c): what one resize does to
    the stored set, with the retry as the code has it and with the retry repaired. */
module PtrResize {
  import opened PtrHash

  const INIT_SIZE := 1019
  const INT_RANGE := 0x8000_0000   // a C int holds -INT_RANGE .. INT_RANGE-1

  /** The global variables: ptrTable with its capacity, tableSize, delDummies, collisions. */
  datatype Table = Table(slots: seq<Slot>, size: int, dummies: int, collisions: int)

  /** `AsWritten` restarts one slot late and keeps tableSize; `Repaired` restarts at the last slot from zero. */
  datatype Restart = AsWritten | Repaired

  datatype Resized = Resized(tb: Table, aborts: nat)

  /** Conversion of a 64-bit value to the int that insert0 and JyHash_insert return. */
  function ToInt(x: int): int { (x + INT_RANGE) % (2 * INT_RANGE) - INT_RANGE }

  function Empty(capacity: nat): seq<Slot> { seq(capacity, _ => Free) }

  /** tableCapacity *= 1.10, made odd. */
  function Grow(capacity: nat): (c: nat)
    requires capacity >= INIT_SIZE
    ensures c > capacity && c % 2 == 1 && 10 * c <= 11 * capacity < 10 * (c + 2)
  {
    var g := capacity * 11 / 10;
    if g % 2 == 0 then g - 1 else g
  }

  /** Collisions counted by one search that may insert. */
  function Steps(t: seq<Slot>, p: Ptr): nat
    requires |t| > 0
  {
    var s := Stop(t, p, 0);
    if s > MAX_REHASH then MAX_REHASH else s
  }

  /** insert0: the new table and the returned int. */
  function Insert0(tb: Table, p: Ptr): (Table, int)
    requires |tb.slots| > 0
  {
    var pos := SearchPos(tb.slots, p);
    var tb1 := tb.(collisions := tb.collisions + Steps(tb.slots, p));
    if pos >= 0 then (tb1, 0)
    else if pos == Compl(|tb.slots|) then (tb1, ToInt(Compl(|tb.slots|)))
    else (tb1.(slots := tb.slots[Compl(pos) := Live(p)], size := tb.size + 1), 1)
  }

  /** The test by which resize_ptrTable recognises an exhausted insert0. */
  predicate AbortSeen(r: int, capacity: nat) { r == Compl(capacity) }

  function Attempt(capacity: nat, size: int, collisions: int): Table {
    Table(Empty(capacity), size, 0, collisions)
  }

  datatype Step = Step(n: nat, tb: Table, aborted: bool)

  /** Old slots below this index are treated again after an abort. */
  function RestartAt(was: seq<Slot>, mode: Restart): nat
    requires |was| > 0
  {
    if mode.AsWritten? then |was| - 1 else |was|
  }

  /** One round of the loop of resize_ptrTable, treating old slot n-1. */
  function Round(was: seq<Slot>, n: nat, tb: Table, mode: Restart): Step
    requires 0 < n <= |was| && |tb.slots| >= INIT_SIZE
  {
    if !was[n - 1].Live? then Step(n - 1, tb, false)
    else
      var (tb1, r) := Insert0(tb, was[n - 1].p);
      if AbortSeen(r, |tb.slots|) then
        Step(RestartAt(was, mode),
             Attempt(Grow(|tb.slots|), if mode.AsWritten? then tb1.size else 0, tb1.collisions), true)
      else Step(n - 1, tb1, false)
  }

  /** An abort raises the capacity, and is only possible while the capacity fits an int. */
  lemma RoundProgress(was: seq<Slot>, n: nat, tb: Table, mode: Restart)
    requires 0 < n <= |was| && |tb.slots| >= INIT_SIZE
    ensures var s := Round(was, n, tb, mode);
            && s.n <= |was|
            && (if s.aborted then |tb.slots| < INT_RANGE && |s.tb.slots| == Grow(|tb.slots|)
                else s.n == n - 1 && |s.tb.slots| == |tb.slots|)
  {
  }

  /** The loop of resize_ptrTable, about to treat slots n-1, n-2, ..., 0 of the former table. */
  function ResizeFrom(was: seq<Slot>, n: nat, tb: Table, mode: Restart): (r: Resized)
    requires n <= |was| && |was| > 0 && |tb.slots| >= INIT_SIZE
    ensures |r.tb.slots| >= |tb.slots|
    ensures |tb.slots| % 2 == 1 ==> |r.tb.slots| % 2 == 1
    decreases if |tb.slots| < INT_RANGE then INT_RANGE - |tb.slots| else 0, n
  {
    if n == 0 then Resized(tb, 0)
    else
      RoundProgress(was, n, tb, mode);
      var s := Round(was, n, tb, mode);
      var z := ResizeFrom(was, s.n, s.tb, mode);
      z.(aborts := z.aborts + if s.aborted then 1 else 0)
  }

  /** resize_ptrTable(capacity). */
  function Resize(was: seq<Slot>, capacity: nat, mode: Restart): Resized
    requires |was| > 0 && capacity >= INIT_SIZE
  {
    ResizeFrom(was, |was|, Attempt(capacity, 0, 0), mode)
  }

  // ----- one insertion

  ghost predicate Fresh(tb: Table) {
    WellPlaced(tb.slots) && |tb.slots| >= INIT_SIZE && DummyAt(tb.slots) == {} && tb.dummies == 0
  }

  /** tableSize minus the number of stored addresses. */
  ghost function Drift(tb: Table): int { tb.size - |LiveSet(tb.slots)| }

  lemma EmptyIsFresh(capacity: nat, size: int, collisions: int)
    requires capacity >= INIT_SIZE
    ensures var tb := Attempt(capacity, size, collisions);
            Fresh(tb) && LiveSet(tb.slots) == {} && Drift(tb) == size
  {
  }

  /** An exhausted search is an abort exactly while the capacity fits the int that insert0 returns. */
  lemma AbortMeaning(capacity: nat)
    ensures AbortSeen(ToInt(Compl(capacity)), capacity) <==> capacity < INT_RANGE
  {
  }

  /** insert0 of an address not yet stored: it is added, or all 41 probes are taken and nothing changes. */
  lemma Insert0Effect(tb: Table, p: Ptr)
    requires Fresh(tb) && p !in LiveSet(tb.slots)
    ensures var (tb1, r) := Insert0(tb, p);
            && Fresh(tb1) && |tb1.slots| == |tb.slots| && Drift(tb1) == Drift(tb)
            && (Stop(tb.slots, p, 0) <= MAX_REHASH ==> r == 1 && LiveSet(tb1.slots) == LiveSet(tb.slots) + {p})
            && (Stop(tb.slots, p, 0) > MAX_REHASH ==>
                  r == ToInt(Compl(|tb.slots|)) && tb1.slots == tb.slots && LiveSet(tb.slots) != {})
  {
    SearchPosMeaning(tb.slots, p);
    if Stop(tb.slots, p, 0) <= MAX_REHASH {
      PlaceKeepsPlaced(tb.slots, p, Compl(SearchPos(tb.slots, p)));
    } else {
      var s := tb.slots[Probe(p, 0, |tb.slots|)];
      assert s != Free;
      assert s != Dummy by { assert Probe(p, 0, |tb.slots|) !in DummyAt(tb.slots); }
      assert s in tb.slots && s.p in LiveSet(tb.slots);
    }
  }

  /** A search that found every probe taken stays so while addresses are only added. */
  lemma {:induction false} StopStays(t: seq<Slot>, i: int, q: Ptr, p: Ptr, k: nat)
    requires 0 <= i < |t| && t[i] == Free && q != p && k <= MAX_REHASH + 1
    requires Stop(t, p, k) > MAX_REHASH
    ensures Stop(t[i := Live(q)], p, k) > MAX_REHASH
    decreases MAX_REHASH + 1 - k, t
  {
    if k <= MAX_REHASH { StopStays(t, i, q, p, k + 1); }
  }

  // ----- the whole loop

  /** What the loop is meant to store: everything so far and everything left, or, once an attempt was
      aborted, the old slots below the restart position. */
  ghost function Expected(was: seq<Slot>, n: nat, tb: Table, aborts: nat, mode: Restart): set<Ptr>
    requires n <= |was| && |was| > 0
  {
    if aborts == 0 then LiveSet(tb.slots) + LiveSet(was[..n]) else LiveSet(was[..RestartAt(was, mode)])
  }

  ghost predicate Loop(was: seq<Slot>, n: nat, tb: Table) {
    && 0 < |was| && n <= |was| && OneSlotEach(was)
    && Fresh(tb) && LiveSet(tb.slots) !! LiveSet(was[..n])
  }

  ghost predicate Outcome(expected: set<Ptr>, r: Table) {
    && Fresh(r) && LiveSet(r.slots) <= expected
    && forall p :: p in expected && p !in LiveSet(r.slots) ==> |r.slots| >= INT_RANGE && Stop(r.slots, p, 0) > MAX_REHASH
  }

  /** How many addresses the abandoned attempts had stored, taken together. */
  ghost function Abandoned(was: seq<Slot>, n: nat, tb: Table, mode: Restart): nat
    requires n <= |was| && |was| > 0 && |tb.slots| >= INIT_SIZE
    decreases if |tb.slots| < INT_RANGE then INT_RANGE - |tb.slots| else 0, n
  {
    if n == 0 then 0
    else
      RoundProgress(was, n, tb, mode);
      var s := Round(was, n, tb, mode);
      Abandoned(was, s.n, s.tb, mode) + if s.aborted then |LiveSet(tb.slots)| else 0
  }

  /** As written, tableSize keeps counting what abandoned attempts stored; every one of them had stored something. */
  ghost predicate DriftOutcome(before: Table, r: Resized, abandoned: nat, mode: Restart) {
    && abandoned >= r.aborts && (abandoned == 0 <==> r.aborts == 0)
    && Drift(r.tb) == if mode.AsWritten? then Drift(before) + abandoned else if r.aborts == 0 then Drift(before) else 0
  }

  lemma SomethingStored<T>(s: set<T>)
    ensures |s| == 0 <==> s == {}
  {
  }

  lemma NextSlot(was: seq<Slot>, n: nat, tb: Table)
    requires Loop(was, n, tb) && n > 0
    ensures !was[n - 1].Live? ==> LiveSet(was[..n]) == LiveSet(was[..n - 1]) && Loop(was, n - 1, tb)
    ensures was[n - 1].Live? ==> var p := was[n - 1].p;
              && LiveSet(was[..n]) == LiveSet(was[..n - 1]) + {p}
              && p !in LiveSet(was[..n - 1]) && p !in LiveSet(tb.slots)
  {
    var u := was[..n];
    assert u[..n - 1] == was[..n - 1];
    LiveSetSnoc(u);
    PrefixOneSlotEach(u);
  }

  /** Slot n-1 is stored (or held nothing), or left out because all its probes are taken. */
  ghost predicate Kept(was: seq<Slot>, n: nat, tb: Table, s: Step)
    requires 0 < n <= |was| && s.n == n - 1
  {
    LiveSet(s.tb.slots) + LiveSet(was[..n - 1]) == LiveSet(tb.slots) + LiveSet(was[..n])
  }

  ghost predicate LeftOut(was: seq<Slot>, n: nat, tb: Table, s: Step)
    requires 0 < n <= |was| && |tb.slots| > 0
  {
    && was[n - 1].Live? && |tb.slots| >= INT_RANGE && s.tb.slots == tb.slots
    && Stop(tb.slots, was[n - 1].p, 0) > MAX_REHASH
  }

  lemma RoundEffect(was: seq<Slot>, n: nat, tb: Table, mode: Restart)
    requires Loop(was, n, tb) && n > 0
    ensures var s := Round(was, n, tb, mode);
            && (s.aborted ==> s.n == RestartAt(was, mode) && LiveSet(s.tb.slots) == {} && LiveSet(tb.slots) != {}
                              && Drift(s.tb) == if mode.AsWritten? then tb.size else 0)
            && (!s.aborted ==> s.n == n - 1 && |s.tb.slots| == |tb.slots| && Drift(s.tb) == Drift(tb)
                               && (Kept(was, n, tb, s) || LeftOut(was, n, tb, s)))
            && Loop(was, s.n, s.tb)
  {
    hide Insert0; hide WellPlaced; hide LiveSet; hide DummyAt; hide OneSlotEach; hide Stop; hide Empty; hide Attempt;
    NextSlot(was, n, tb);
    if was[n - 1].Live? {
      Insert0Effect(tb, was[n - 1].p);
      AbortMeaning(|tb.slots|);
      if Round(was, n, tb, mode).aborted { AbortedRound(was, n, tb, mode); }
    }
  }

  /** An abort starts over with an empty table. */
  lemma AbortedRound(was: seq<Slot>, n: nat, tb: Table, mode: Restart)
    requires Loop(was, n, tb) && n > 0 && Round(was, n, tb, mode).aborted
    ensures var s := Round(was, n, tb, mode);
            && s.n == RestartAt(was, mode) && LiveSet(s.tb.slots) == {}
            && Drift(s.tb) == (if mode.AsWritten? then tb.size else 0) && Loop(was, s.n, s.tb)
  {
    hide Insert0; hide WellPlaced; hide LiveSet; hide DummyAt; hide OneSlotEach; hide Stop; hide Empty; hide Attempt;
    var (tb1, r) := Insert0(tb, was[n - 1].p);
    NextSlot(was, n, tb);
    Insert0Effect(tb, was[n - 1].p);
    AbortMeaning(|tb.slots|);
    EmptyIsFresh(Grow(|tb.slots|), if mode.AsWritten? then tb1.size else 0, tb1.collisions);
  }

  lemma RoundKeepsTaken(was: seq<Slot>, n: nat, tb: Table, mode: Restart, p: Ptr)
    requires Loop(was, n, tb) && n > 0 && !Round(was, n, tb, mode).aborted
    requires p !in LiveSet(was[..n]) && Stop(tb.slots, p, 0) > MAX_REHASH
    ensures Stop(Round(was, n, tb, mode).tb.slots, p, 0) > MAX_REHASH
  {
    NextSlot(was, n, tb);
    if was[n - 1].Live? && Stop(tb.slots, was[n - 1].p, 0) <= MAX_REHASH {
      SearchPosMeaning(tb.slots, was[n - 1].p);
      StopStays(tb.slots, Compl(SearchPos(tb.slots, was[n - 1].p)), was[n - 1].p, p, 0);
    } else if was[n - 1].Live? {
      SearchPosMeaning(tb.slots, was[n - 1].p);
    }
  }

  /** Where the capacity no longer fits an int there are no aborts, and an address left out stays out. */
  lemma {:induction false} LeftOutStays(was: seq<Slot>, n: nat, tb: Table, mode: Restart, p: Ptr)
    requires Loop(was, n, tb) && |tb.slots| >= INT_RANGE
    requires p !in LiveSet(was[..n]) && Stop(tb.slots, p, 0) > MAX_REHASH
    ensures var r := ResizeFrom(was, n, tb, mode);
            r.aborts == 0 && Stop(r.tb.slots, p, 0) > MAX_REHASH
    decreases n
  {
    hide Round; hide LiveSet; hide WellPlaced; hide OneSlotEach;
    if n > 0 {
      var s := Round(was, n, tb, mode);
      RoundProgress(was, n, tb, mode);
      RoundEffect(was, n, tb, mode);
      RoundKeepsTaken(was, n, tb, mode, p);
      NextSlot(was, n, tb);
      LeftOutStays(was, n - 1, s.tb, mode, p);
    }
  }

  lemma SameExpectation(was: seq<Slot>, n: nat, tb: Table, mode: Restart, aborts: nat)
    requires Loop(was, n, tb) && n > 0
    requires var s := Round(was, n, tb, mode); s.aborted || (s.n == n - 1 && Kept(was, n, tb, s))
    ensures var s := Round(was, n, tb, mode);
            && s.n <= |was|
            && Expected(was, n, tb, aborts + (if s.aborted then 1 else 0), mode)
               == Expected(was, s.n, s.tb, aborts, mode)
  {
    hide Round; hide LiveSet; hide WellPlaced; hide OneSlotEach;
    RoundEffect(was, n, tb, mode);
  }

  lemma NothingLeft(was: seq<Slot>, tb: Table, mode: Restart)
    requires Loop(was, 0, tb)
    ensures Outcome(Expected(was, 0, tb, 0, mode), tb)
  {
    assert LiveSet(was[..0]) == {};
  }

  lemma OneMoreLeftOut(was: seq<Slot>, n: nat, tb: Table, mode: Restart, r: Table)
    requires Loop(was, n, tb) && n > 0 && was[n - 1].Live? && |r.slots| >= INT_RANGE
    requires Outcome(Expected(was, n - 1, tb, 0, mode), r) && Stop(r.slots, was[n - 1].p, 0) > MAX_REHASH
    ensures Outcome(Expected(was, n, tb, 0, mode), r)
  {
    NextSlot(was, n, tb);
  }

  /** A round that leaves its address out, when the remaining loop stores what it is meant to. */
  lemma LeftOutLast(was: seq<Slot>, n: nat, tb: Table, mode: Restart)
    requires Loop(was, n, tb) && n > 0
    requires var s := Round(was, n, tb, mode); !s.aborted && s.n == n - 1 && LeftOut(was, n, tb, s) && Loop(was, s.n, s.tb)
    requires var s := Round(was, n, tb, mode); var r := ResizeFrom(was, s.n, s.tb, mode);
             Outcome(Expected(was, s.n, s.tb, r.aborts, mode), r.tb)
    ensures var s := Round(was, n, tb, mode); var r := ResizeFrom(was, s.n, s.tb, mode);
            r.aborts == 0 && Outcome(Expected(was, n, tb, r.aborts, mode), r.tb)
  {
    hide Round; hide WellPlaced; hide OneSlotEach; hide LiveSet; hide Stop; hide Outcome;
    var s := Round(was, n, tb, mode);
    NextSlot(was, n, tb);
    LeftOutStays(was, n - 1, s.tb, mode, was[n - 1].p);
    OneMoreLeftOut(was, n, tb, mode, ResizeFrom(was, n - 1, s.tb, mode).tb);
  }

  /** The whole loop stores what it is meant to store, unless the capacity outgrows an int. */
  lemma {:induction false} LoopOutcome(was: seq<Slot>, n: nat, tb: Table, mode: Restart)
    requires Loop(was, n, tb)
    ensures var r := ResizeFrom(was, n, tb, mode); Outcome(Expected(was, n, tb, r.aborts, mode), r.tb)
    decreases if |tb.slots| < INT_RANGE then INT_RANGE - |tb.slots| else 0, n
  {
    hide Round; hide WellPlaced; hide OneSlotEach; hide LiveSet; hide Stop; hide Outcome; hide Expected;
    if n == 0 {
      NothingLeft(was, tb, mode);
    } else {
      var s := Round(was, n, tb, mode);
      RoundProgress(was, n, tb, mode);
      RoundEffect(was, n, tb, mode);
      LoopOutcome(was, s.n, s.tb, mode);
      if s.aborted || Kept(was, n, tb, s) {
        SameExpectation(was, n, tb, mode, ResizeFrom(was, s.n, s.tb, mode).aborts);
      } else {
        LeftOutLast(was, n, tb, mode);
      }
    }
  }

  /** tableSize: exact without an abort; as written, too high by exactly what the abandoned attempts stored. */
  lemma {:induction false} LoopDrift(was: seq<Slot>, n: nat, tb: Table, mode: Restart)
    requires Loop(was, n, tb)
    ensures DriftOutcome(tb, ResizeFrom(was, n, tb, mode), Abandoned(was, n, tb, mode), mode)
    decreases if |tb.slots| < INT_RANGE then INT_RANGE - |tb.slots| else 0, n
  {
    hide Round; hide LiveSet; hide WellPlaced; hide OneSlotEach;
    if n > 0 {
      var s := Round(was, n, tb, mode);
      RoundProgress(was, n, tb, mode);
      RoundEffect(was, n, tb, mode);
      LoopDrift(was, s.n, s.tb, mode);
      if s.aborted { SomethingStored(LiveSet(tb.slots)); }
    }
  }

  // ----- one resize

  /** The table that resize_ptrTable leaves behind, exactly: with no abort the whole set and an exact
      tableSize; with an abort, as written, the set without the former last slot and a tableSize too high by
      what the abandoned attempts stored; repaired, the whole set and an exact tableSize always. (Stated for final
      capacities that fit an int; beyond that see `LoopOutcome`.) */
  lemma ResizeEffect(was: seq<Slot>, capacity: nat, mode: Restart)
    requires OneSlotEach(was) && |was| > 0 && capacity >= INIT_SIZE
    ensures var r := Resize(was, capacity, mode);
            && Fresh(r.tb)
            && (|r.tb.slots| < INT_RANGE ==>
                  LiveSet(r.tb.slots) ==
                    if r.aborts == 0 || mode.Repaired? then LiveSet(was) else LiveSet(was[..|was| - 1]))
            && (r.tb.size == |LiveSet(r.tb.slots)| <==> r.aborts == 0 || mode.Repaired?)
            && (mode.AsWritten? ==>
                  r.tb.size == |LiveSet(r.tb.slots)| + Abandoned(was, |was|, Attempt(capacity, 0, 0), mode))
            && Abandoned(was, |was|, Attempt(capacity, 0, 0), mode) >= r.aborts
  {
    ResizeStores(was, capacity, mode);
    ResizeSize(was, capacity, mode);
    hide Resize; hide LiveSet; hide Fresh; hide Abandoned;
  }

  lemma ResizeStores(was: seq<Slot>, capacity: nat, mode: Restart)
    requires OneSlotEach(was) && |was| > 0 && capacity >= INIT_SIZE
    ensures var r := Resize(was, capacity, mode);
            && Fresh(r.tb)
            && (|r.tb.slots| < INT_RANGE ==>
                  LiveSet(r.tb.slots) ==
                    if r.aborts == 0 || mode.Repaired? then LiveSet(was) else LiveSet(was[..|was| - 1]))
  {
    EmptyIsFresh(capacity, 0, 0);
    assert was[..|was|] == was;
    hide ResizeFrom; hide WellPlaced; hide DummyAt; hide Stop; hide OneSlotEach; hide Attempt; hide LiveSet;
    LoopOutcome(was, |was|, Attempt(capacity, 0, 0), mode);
  }

  lemma ResizeSize(was: seq<Slot>, capacity: nat, mode: Restart)
    requires OneSlotEach(was) && |was| > 0 && capacity >= INIT_SIZE
    ensures var r := Resize(was, capacity, mode); var abandoned := Abandoned(was, |was|, Attempt(capacity, 0, 0), mode);
            && r.tb.size == |LiveSet(r.tb.slots)| + (if mode.AsWritten? then abandoned else 0)
            && abandoned >= r.aborts && (abandoned == 0 <==> r.aborts == 0)
  {
    EmptyIsFresh(capacity, 0, 0);
    hide ResizeFrom; hide Abandoned; hide WellPlaced; hide DummyAt; hide Stop; hide OneSlotEach; hide Attempt; hide LiveSet;
    LoopDrift(was, |was|, Attempt(capacity, 0, 0), mode);
  }

  // ----- the first probe is injective on addresses below the capacity

  /** Every stored address p sits in slot p. */
  ghost predicate Direct(t: seq<Slot>) {
    forall i :: 0 <= i < |t| && t[i].Live? ==> t[i].p == i
  }

  lemma DirectSlotFree(t: seq<Slot>, p: Ptr)
    requires Direct(t) && DummyAt(t) == {} && p < |t| && p !in LiveSet(t)
    ensures Stop(t, p, 0) == 0 && SearchPos(t, p) == Compl(p)
  {
    assert Probe(p, 0, |t|) == p;
    assert t[p] == Free by {
      assert p !in DummyAt(t);
      assert forall s :: s in t && s.Live? ==> s.p in LiveSet(t);
    }
  }

  lemma DirectInsert0(was: seq<Slot>, n: nat, tb: Table)
    requires Loop(was, n, tb) && Direct(tb.slots) && n > 0 && was[n - 1].Live? && was[n - 1].p < |tb.slots|
    ensures var (tb1, r) := Insert0(tb, was[n - 1].p); r == 1 && Direct(tb1.slots)
  {
    hide WellPlaced; hide LiveSet; hide DummyAt; hide OneSlotEach; hide Stop; hide SearchPos;
    NextSlot(was, n, tb);
    DirectSlotFree(tb.slots, was[n - 1].p);
  }

  /** Once the capacity exceeds every address, no attempt is aborted: an abort implies that some address is
      at least the capacity it was tried with. */
  lemma {:induction false} NoAbortAboveAddresses(was: seq<Slot>, n: nat, tb: Table, mode: Restart)
    requires Loop(was, n, tb) && Direct(tb.slots)
    requires forall i :: 0 <= i < n && was[i].Live? ==> was[i].p < |tb.slots|
    ensures ResizeFrom(was, n, tb, mode).aborts == 0
    decreases n
  {
    hide WellPlaced; hide LiveSet; hide DummyAt; hide OneSlotEach; hide Stop; hide SearchPos; hide Insert0; hide Direct;
    if n > 0 {
      RoundEffect(was, n, tb, mode);
      if was[n - 1].Live? { DirectInsert0(was, n, tb); }
      NoAbortAboveAddresses(was, n - 1, Round(was, n, tb, mode).tb, mode);
    }
  }

  lemma AbortNeedsHighAddress(was: seq<Slot>, capacity: nat, mode: Restart)
    requires OneSlotEach(was) && |was| > 0 && capacity >= INIT_SIZE
    requires Resize(was, capacity, mode).aborts > 0
    ensures exists p :: p in LiveSet(was) && p >= capacity
  {
    if forall i :: 0 <= i < |was| && was[i].Live? ==> was[i].p < capacity {
      EmptyIsFresh(capacity, 0, 0);
      NoAbortAboveAddresses(was, |was|, Attempt(capacity, 0, 0), mode);
    } else {
      var i :| 0 <= i < |was| && was[i].Live? && was[i].p >= capacity;
      assert was[i] in was && was[i].p in LiveSet(was);
    }
  }

  /** The retries end at a capacity bounded by the addresses alone: the requested one, or 1.10 times a bound
      on the addresses, whichever is larger. */
  lemma {:induction false} CapacityBound(was: seq<Slot>, n: nat, tb: Table, mode: Restart, bound: nat)
    requires Loop(was, n, tb) && (|tb.slots| >= bound ==> Direct(tb.slots))
    requires forall i :: 0 <= i < |was| && was[i].Live? ==> was[i].p < bound
    ensures var r := ResizeFrom(was, n, tb, mode);
            && (|r.tb.slots| <= |tb.slots| || |r.tb.slots| <= bound * 11 / 10)
            && (r.aborts == 0 ==> |r.tb.slots| == |tb.slots|)
    decreases if |tb.slots| < INT_RANGE then INT_RANGE - |tb.slots| else 0, n
  {
    if n > 0 {
      hide WellPlaced; hide LiveSet; hide OneSlotEach; hide Stop; hide SearchPos;
      var s := Round(was, n, tb, mode);
      RoundProgress(was, n, tb, mode);
      RoundEffect(was, n, tb, mode);
      if |tb.slots| >= bound && was[n - 1].Live? { DirectInsert0(was, n, tb); }
      CapacityBound(was, s.n, s.tb, mode, bound);
    }
  }

  /** Slots holding no address are passed over. */
  lemma {:induction false} SkipsHoles(was: seq<Slot>, m: nat, n: nat, tb: Table, mode: Restart)
    requires m <= n <= |was| && 0 < |was| && |tb.slots| >= INIT_SIZE
    requires forall i :: m <= i < n ==> !was[i].Live?
    ensures ResizeFrom(was, n, tb, mode) == ResizeFrom(was, m, tb, mode)
    decreases n - m
  {
    hide Insert0; hide Attempt; hide Grow;
    if m < n { SkipsHoles(was, m, n - 1, tb, mode); }
  }
}
