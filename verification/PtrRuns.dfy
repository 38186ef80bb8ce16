/** JyHash_insert, JyHash_delete, JyHash_contains and clean_table as operations on a set, over whole runs. */
module PtrRuns {
  import opened PtrHash
  import opened PtrResize

  /** getPosForInsert with its side effects: the new counters and the returned position. */
  function InsertSearch(tb: Table, p: Ptr): (r: (Table, int))
    requires |tb.slots| > 0
    ensures r.0.slots == tb.slots && -|tb.slots| - 1 <= r.1 < |tb.slots|
  {
    var pos := SearchInsertPos(tb.slots, p);
    var reused := pos < 0 && FirstDummy(tb.slots, p, 0, Stop(tb.slots, p, 0)) >= 0;
    (tb.(collisions := tb.collisions + Steps(tb.slots, p),
         dummies := if reused then tb.dummies - 1 else tb.dummies), pos)
  }

  /** d is the number of probes for p that find something else before the search stops, or 40 if those do. */
  ghost predicate ProbesPassed(t: seq<Slot>, p: Ptr, d: int)
    requires |t| > 0
  {
    && 0 <= d <= 40 && (forall k :: 0 <= k < d ==> t[Probe(p, k, |t|)] !in {Free, Live(p)})
    && (d < 40 ==> t[Probe(p, d, |t|)] in {Free, Live(p)})
  }

  /** What the collision counter counts. */
  lemma CollisionsCounted(tb: Table, p: Ptr)
    requires |tb.slots| > 0
    ensures ProbesPassed(tb.slots, p, Insert0(tb, p).0.collisions - tb.collisions)
    ensures ProbesPassed(tb.slots, p, InsertSearch(tb, p).0.collisions - tb.collisions)
  {
  }

  /** JyHash_insert: the new table and the returned int. */
  function Insert(tb: Table, p: Ptr): (Table, int)
    requires |tb.slots| >= INIT_SIZE
  {
    var (tb1, pos) := InsertSearch(tb, p);
    if pos >= 0 then (tb1, 0)
    else if pos == Compl(|tb.slots|) then
      Insert0(Resize(tb.slots, 2 * |tb.slots| - 1, AsWritten).tb, p)
    else (tb1.(slots := tb.slots[Compl(pos) := Live(p)], size := tb.size + 1), 1)
  }

  /** JyHash_delete. */
  function Delete(tb: Table, p: Ptr): (Table, int)
    requires |tb.slots| > 0
  {
    var pos := SearchPos(tb.slots, p);
    if pos >= 0 && pos < |tb.slots| then
      (tb.(slots := tb.slots[pos := Dummy], dummies := tb.dummies + 1, size := tb.size - 1), 1)
    else (tb, 0)
  }

  /** JyHash_contains. */
  function Contains(tb: Table, p: Ptr): int
    requires |tb.slots| > 0
  {
    if SearchPos(tb.slots, p) >= 0 then 1 else 0
  }

  /** JyHash_init. */
  function Init(): Table { Attempt(INIT_SIZE, 0, 0) }

  /** What every operation keeps. tableSize may run ahead of the number of addresses, never behind. */
  ghost predicate Invariant(tb: Table) {
    && WellPlaced(tb.slots) && |tb.slots| >= INIT_SIZE && |tb.slots| % 2 == 1
    && tb.dummies == |DummyAt(tb.slots)| && Drift(tb) >= 0
  }

  /** The insertion finds all 41 probes taken and rebuilds the table. */
  ghost predicate Rebuilds(tb: Table, p: Ptr)
    requires |tb.slots| > 0
  {
    AllProbesTaken(tb.slots, p)
  }

  /** The rebuild is aborted at least once. */
  ghost predicate RebuildAborts(tb: Table, p: Ptr)
    requires |tb.slots| >= INIT_SIZE
  {
    Rebuilds(tb, p) && Resize(tb.slots, 2 * |tb.slots| - 1, AsWritten).aborts > 0
  }

  /** The address a rebuild loses: the one in the last slot, when an attempt is aborted. */
  ghost function Lost(tb: Table, p: Ptr): set<Ptr>
    requires |tb.slots| >= INIT_SIZE
  {
    if RebuildAborts(tb, p) && tb.slots[|tb.slots| - 1].Live? then {tb.slots[|tb.slots| - 1].p} else {}
  }

  /** The insertion of an address that is not stored and finds room: a slot is taken over, counters follow. */
  lemma InsertNew(tb: Table, p: Ptr)
    requires Invariant(tb) && !Rebuilds(tb, p) && p !in LiveSet(tb.slots)
    ensures var (tb1, r) := Insert(tb, p); var i := Compl(SearchInsertPos(tb.slots, p));
            && 0 <= i < |tb.slots| && Usable(tb.slots, p, i) && r == 1 && tb1.slots == tb.slots[i := Live(p)]
            && tb1.size == tb.size + 1 && tb1.dummies == tb.dummies - (if i in DummyAt(tb.slots) then 1 else 0)
  {
    SearchInsertPosMeaning(tb.slots, p);
    ReusesDummy(tb.slots, p);
    hide WellPlaced; hide AllProbesTaken; hide LiveSet; hide DummyAt; hide Stop; hide FirstDummy; hide SearchInsertPos;
    hide Usable;
  }

  lemma InsertStored(tb: Table, p: Ptr)
    requires Invariant(tb) && p in LiveSet(tb.slots)
    ensures !Rebuilds(tb, p)
    ensures var (tb1, r) := Insert(tb, p);
            r == 0 && tb1.slots == tb.slots && tb1.size == tb.size && tb1.dummies == tb.dummies
  {
    SearchPosMeaning(tb.slots, p);
    SearchInsertPosMeaning(tb.slots, p);
    hide WellPlaced; hide AllProbesTaken; hide LiveSet; hide Stop; hide FirstDummy; hide SearchInsertPos;
  }

  lemma InsertWithoutRebuild(tb: Table, p: Ptr)
    requires Invariant(tb) && !Rebuilds(tb, p)
    ensures var (tb1, r) := Insert(tb, p);
            && Invariant(tb1) && |tb1.slots| == |tb.slots| && Drift(tb1) == Drift(tb)
            && r == (if p in LiveSet(tb.slots) then 0 else 1)
            && LiveSet(tb1.slots) == LiveSet(tb.slots) + {p}
  {
    hide WellPlaced; hide AllProbesTaken; hide LiveSet; hide DummyAt; hide Stop; hide FirstDummy; hide SearchInsertPos;
    hide Insert;
    if p in LiveSet(tb.slots) {
      InsertStored(tb, p);
      assert LiveSet(tb.slots) + {p} == LiveSet(tb.slots);
    } else {
      InsertNew(tb, p);
      PlaceKeepsPlaced(tb.slots, p, Compl(SearchInsertPos(tb.slots, p)));
    }
  }

  /** delDummies goes down exactly when the slot handed out is a tombstone. */
  lemma ReusesDummy(t: seq<Slot>, p: Ptr)
    requires WellPlaced(t) && p !in LiveSet(t) && !AllProbesTaken(t, p)
    ensures var pos := SearchInsertPos(t, p);
            && 0 <= Compl(pos) < |t|
            && (FirstDummy(t, p, 0, Stop(t, p, 0)) >= 0 <==> Compl(pos) in DummyAt(t))
  {
    SearchPosMeaning(t, p);
    SearchInsertPosMeaning(t, p);
    StopFinds(t, p);
    FirstDummyMeaning(t, p, 0, Stop(t, p, 0));
  }

  lemma LastSlotLost(was: seq<Slot>)
    requires |was| > 0 && OneSlotEach(was)
    ensures LiveSet(was[..|was| - 1])
            == LiveSet(was) - if was[|was| - 1].Live? then {was[|was| - 1].p} else {}
  {
    LiveSetSnoc(was);
    PrefixOneSlotEach(was);
  }

  function Rebuilt(tb: Table): Table
    requires |tb.slots| >= INIT_SIZE
  {
    Resize(tb.slots, 2 * |tb.slots| - 1, AsWritten).tb
  }

  /** The insertion is refused: all 41 probes are taken, and so they are again after the rebuild. */
  ghost predicate Refused(tb: Table, p: Ptr)
    requires |tb.slots| >= INIT_SIZE
  {
    Rebuilds(tb, p) && AllProbesTaken(Rebuilt(tb).slots, p)
  }

  /** Without tombstones a search is exhausted exactly if all probes hold other addresses. */
  lemma FreshExhausted(tb: Table, p: Ptr)
    requires Fresh(tb) && p !in LiveSet(tb.slots)
    ensures Stop(tb.slots, p, 0) > MAX_REHASH <==> AllProbesTaken(tb.slots, p)
  {
    SearchInsertPosMeaning(tb.slots, p);
    forall k: nat | k <= MAX_REHASH ensures tb.slots[Probe(p, k, |tb.slots|)] != Dummy {
      assert Probe(p, k, |tb.slots|) !in DummyAt(tb.slots);
    }
    if Stop(tb.slots, p, 0) > MAX_REHASH {
      forall k: nat | k <= MAX_REHASH
        ensures tb.slots[Probe(p, k, |tb.slots|)].Live? && tb.slots[Probe(p, k, |tb.slots|)].p != p
      {
        assert tb.slots[Probe(p, k, |tb.slots|)] != Free;
      }
    }
  }

  lemma RebuildEntered(tb: Table, p: Ptr)
    requires Invariant(tb) && Rebuilds(tb, p)
    ensures p !in LiveSet(tb.slots) && Insert(tb, p) == Insert0(Rebuilt(tb), p)
  {
    SearchInsertPosMeaning(tb.slots, p);
    SearchPosMeaning(tb.slots, p);
  }

  lemma RebuiltEffect(tb: Table, p: Ptr)
    requires |tb.slots| >= INIT_SIZE && |tb.slots| % 2 == 1 && OneSlotEach(tb.slots) && Rebuilds(tb, p)
    ensures var z := Rebuilt(tb);
            && Fresh(z) && |z.slots| % 2 == 1 && Drift(z) >= 0
            && (Drift(z) == 0 <==> !RebuildAborts(tb, p))
            && (|z.slots| < INT_RANGE ==> LiveSet(z.slots) == LiveSet(tb.slots) - Lost(tb, p))
  {
    hide WellPlaced; hide AllProbesTaken; hide LiveSet; hide OneSlotEach; hide DummyAt; hide ResizeFrom;
    ResizeEffect(tb.slots, 2 * |tb.slots| - 1, AsWritten);
    LastSlotLost(tb.slots);
  }

  lemma InsertWithRebuild(tb: Table, p: Ptr)
    requires Invariant(tb) && Rebuilds(tb, p)
    ensures var (tb1, r) := Insert(tb, p);
            && Invariant(tb1) && p !in LiveSet(tb.slots)
            && (Drift(tb1) == 0 <==> !RebuildAborts(tb, p))
            && (p in LiveSet(tb1.slots) <==> !Refused(tb, p))
            && r == (if Refused(tb, p) then ToInt(Compl(|tb1.slots|)) else 1)
            && (|tb1.slots| < INT_RANGE ==>
                  LiveSet(tb1.slots) == LiveSet(tb.slots) - Lost(tb, p) + if r == 1 then {p} else {})
  {
    hide Resize; hide WellPlaced; hide OneSlotEach; hide AllProbesTaken; hide Insert; hide Insert0; hide LiveSet;
    hide DummyAt; hide Lost; hide RebuildAborts; hide Rebuilds;
    PlacedOnce(tb.slots);
    RebuildEntered(tb, p);
    RebuildLeavesOut(tb, p);
    RebuiltEffect(tb, p);
    FreshExhausted(Rebuilt(tb), p);
    Insert0Effect(Rebuilt(tb), p);
    ReturnCode(|Rebuilt(tb).slots|);
  }

  lemma RebuildLeavesOut(tb: Table, p: Ptr)
    requires Invariant(tb) && p !in LiveSet(tb.slots)
    ensures p !in LiveSet(Resize(tb.slots, 2 * |tb.slots| - 1, AsWritten).tb.slots)
  {
    var was := tb.slots;
    hide Stop; hide WellPlaced; hide OneSlotEach; hide LiveSet; hide DummyAt; hide ResizeFrom; hide Attempt;
    PlacedOnce(was);
    EmptyIsFresh(2 * |was| - 1, 0, 0);
    assert was[..|was|] == was;
    LoopOutcome(was, |was|, Attempt(2 * |was| - 1, 0, 0), AsWritten);
    LastSlotLost(was);
  }

  /** An odd capacity never makes the exhausted answer look like 1; it looks like 0 for just one capacity
      in 2^32, and is negative while the capacity fits an int. */
  lemma ReturnCode(capacity: nat)
    requires capacity % 2 == 1
    ensures ToInt(Compl(capacity)) != 1
    ensures ToInt(Compl(capacity)) == 0 <==> capacity % (2 * INT_RANGE) == 2 * INT_RANGE - 1
    ensures capacity < INT_RANGE ==> ToInt(Compl(capacity)) < 0
  {
  }

  /** The exact effect of an insertion that answers r. Whatever the capacity, 1 is the answer exactly if the address is
      absent and not refused, and it is stored afterwards exactly if it was or the answer is 1. While capacities fit
      an int: 0 means it was stored before, and the other addresses are kept except the one of the last slot if the
      rebuild was aborted. */
  ghost predicate InsertMeans(tb: Table, p: Ptr, tb1: Table, r: int)
    requires |tb.slots| >= INIT_SIZE
  {
    && (r == 1 <==> p !in LiveSet(tb.slots) && !Refused(tb, p))
    && (p in LiveSet(tb1.slots) <==> p in LiveSet(tb.slots) || r == 1)
    && (|tb1.slots| < INT_RANGE ==>
          && (r == 0 <==> p in LiveSet(tb.slots))
          && LiveSet(tb1.slots) == LiveSet(tb.slots) - Lost(tb, p) + if r == 1 then {p} else {})
  }

  /** An absent address is refused exactly if all its probes are taken before and after the rebuild. */
  lemma InsertRefusedIff(tb: Table, p: Ptr)
    requires Invariant(tb) && p !in LiveSet(tb.slots)
    ensures Insert(tb, p).1 != 1 <==> Refused(tb, p)
    ensures Refused(tb, p) ==> p !in LiveSet(Insert(tb, p).0.slots)
  {
    hide Insert; hide LiveSet; hide Invariant; hide Refused;
    InsertEffect(tb, p);
  }

  lemma InsertEffect(tb: Table, p: Ptr)
    requires Invariant(tb)
    ensures Invariant(Insert(tb, p).0) && InsertMeans(tb, p, Insert(tb, p).0, Insert(tb, p).1)
  {
    hide Insert; hide LiveSet; hide AllProbesTaken; hide Resize; hide Invariant; hide Lost; hide RebuildAborts;
    InvariantCapacity(tb, p);
    RefusedRebuilds(tb, p);
    hide Refused;
    if Rebuilds(tb, p) {
      InsertWithRebuild(tb, p);
      ReturnCode(|Insert(tb, p).0.slots|);
    } else {
      InsertWithoutRebuild(tb, p);
    }
  }

  lemma RefusedRebuilds(tb: Table, p: Ptr)
    requires Invariant(tb)
    ensures Rebuilds(tb, p) ==> p !in LiveSet(tb.slots)
    ensures Refused(tb, p) ==> Rebuilds(tb, p)
  {
    SearchInsertPosMeaning(tb.slots, p);
    SearchPosMeaning(tb.slots, p);
  }

  lemma InvariantCapacity(tb: Table, p: Ptr)
    requires Invariant(tb)
    ensures |tb.slots| >= INIT_SIZE && |tb.slots| % 2 == 1 && (Rebuilds(tb, p) || Lost(tb, p) == {})
    ensures Invariant(Insert(tb, p).0) ==> |Insert(tb, p).0.slots| % 2 == 1
  {
  }

  lemma LostIsStored(tb: Table, p: Ptr)
    requires Invariant(tb)
    ensures Lost(tb, p) <= LiveSet(tb.slots) && (p in LiveSet(tb.slots) ==> Lost(tb, p) == {})
  {
    hide Resize; hide WellPlaced; hide Insert; hide Insert0;
    if Rebuilds(tb, p) {
      RebuildEntered(tb, p);
      var last := tb.slots[|tb.slots| - 1];
      assert last in tb.slots;
    }
  }

  /** An insertion keeps every other address exactly when it does not come to an aborted rebuild of a table
      whose last slot is in use. */
  lemma InsertKeepsOthersIff(tb: Table, p: Ptr)
    requires Invariant(tb) && |Insert(tb, p).0.slots| < INT_RANGE
    ensures LiveSet(tb.slots) <= LiveSet(Insert(tb, p).0.slots)
            <==> !(RebuildAborts(tb, p) && tb.slots[|tb.slots| - 1].Live?)
  {
    hide Insert; hide LiveSet; hide WellPlaced; hide Refused; hide Rebuilds; hide Resize; hide DummyAt;
    InsertEffect(tb, p);
    LostIsStored(tb, p);
    var kept := LiveSet(tb.slots) <= LiveSet(Insert(tb, p).0.slots);
    if Lost(tb, p) == {} {
      assert kept;
    } else {
      var q :| q in Lost(tb, p);
      assert q in LiveSet(tb.slots) && q !in LiveSet(Insert(tb, p).0.slots);
    }
  }

  lemma DeleteEffect(tb: Table, p: Ptr)
    requires Invariant(tb)
    ensures var (tb1, r) := Delete(tb, p);
            && Invariant(tb1) && |tb1.slots| == |tb.slots| && Drift(tb1) == Drift(tb)
            && r == (if p in LiveSet(tb.slots) then 1 else 0)
            && LiveSet(tb1.slots) == LiveSet(tb.slots) - {p}
  {
    SearchPosMeaning(tb.slots, p);
    if p in LiveSet(tb.slots) { RemoveKeepsPlaced(tb.slots, SearchPos(tb.slots, p)); }
  }

  // ----- whole runs

  datatype Op = OpInsert(p: Ptr) | OpDelete(p: Ptr) | OpContains(p: Ptr) | OpClean

  function Apply(tb: Table, op: Op): (Table, int)
    requires |tb.slots| >= INIT_SIZE
  {
    match op
    case OpInsert(p) => Insert(tb, p)
    case OpDelete(p) => Delete(tb, p)
    case OpContains(p) => (tb, Contains(tb, p))
    case OpClean => (Resize(tb.slots, |tb.slots|, AsWritten).tb, 0)
  }

  lemma {:induction false} ApplyKeepsInvariant(tb: Table, op: Op)
    requires Invariant(tb)
    ensures Invariant(Apply(tb, op).0)
  {
    match op
    case OpInsert(p) => InsertEffect(tb, p);
    case OpDelete(p) => DeleteEffect(tb, p);
    case OpContains(p) =>
    case OpClean => ResizeEffect(tb.slots, |tb.slots|, AsWritten);
  }

  /** Cleaning up keeps the capacity and the set and leaves no tombstone, unless the rebuild is aborted. */
  lemma CleanEffect(tb: Table)
    requires Invariant(tb)
    ensures var tb1 := Apply(tb, OpClean).0;
            && Invariant(tb1) && tb1.dummies == 0 && DummyAt(tb1.slots) == {} && LiveSet(tb1.slots) <= LiveSet(tb.slots)
            && (|tb1.slots| == |tb.slots| < INT_RANGE ==> LiveSet(tb1.slots) == LiveSet(tb.slots) && Drift(tb1) == 0)
            && (Resize(tb.slots, |tb.slots|, AsWritten).aborts == 0 ==> |tb1.slots| == |tb.slots|)
  {
    ResizeEffect(tb.slots, |tb.slots|, AsWritten);
    NoAbortKeepsCapacity(tb.slots, |tb.slots|, Attempt(|tb.slots|, 0, 0), AsWritten);
    RebuildWithin(tb.slots);
    SlotsOfAttempt(|tb.slots|);
    hide ResizeFrom; hide LiveSet; hide WellPlaced; hide DummyAt; hide Abandoned; hide Attempt;
  }

  lemma SlotsOfAttempt(capacity: nat)
    ensures |Attempt(capacity, 0, 0).slots| == capacity
  {
  }

  /** A rebuild stores nothing that was not stored. */
  lemma RebuildWithin(was: seq<Slot>)
    requires OneSlotEach(was) && |was| >= INIT_SIZE
    ensures LiveSet(Resize(was, |was|, AsWritten).tb.slots) <= LiveSet(was)
  {
    EmptyIsFresh(|was|, 0, 0);
    assert was[..|was|] == was;
    PrefixLive(was);
    hide ResizeFrom; hide WellPlaced; hide DummyAt; hide Stop; hide OneSlotEach; hide Attempt; hide LiveSet;
    LoopOutcome(was, |was|, Attempt(|was|, 0, 0), AsWritten);
  }

  /** Only aborts change the capacity of a rebuild. */
  lemma {:induction false} NoAbortKeepsCapacity(was: seq<Slot>, n: nat, tb: Table, mode: Restart)
    requires n <= |was| && |was| > 0 && |tb.slots| >= INIT_SIZE
    ensures var r := ResizeFrom(was, n, tb, mode); |r.tb.slots| == |tb.slots| <==> r.aborts == 0
    decreases if |tb.slots| < INT_RANGE then INT_RANGE - |tb.slots| else 0, n
  {
    if n > 0 {
      RoundProgress(was, n, tb, mode);
      var s := Round(was, n, tb, mode);
      NoAbortKeepsCapacity(was, s.n, s.tb, mode);
    }
  }

  lemma PrefixLive(was: seq<Slot>)
    requires |was| > 0
    ensures LiveSet(was[..|was| - 1]) <= LiveSet(was)
  {
  }

  /** The operation does not abort a rebuild, and the table stays small enough for an int. */
  ghost predicate Undisturbed(tb: Table, op: Op)
    requires |tb.slots| >= INIT_SIZE
  {
    && |Apply(tb, op).0.slots| < INT_RANGE
    && (op.OpInsert? ==> !RebuildAborts(tb, op.p))
    && (op.OpClean? ==> Resize(tb.slots, |tb.slots|, AsWritten).aborts == 0)
  }

  /** The finite set this table is meant to be: the set after an operation that answered r ... */
  function SetAfter(s: set<Ptr>, op: Op, r: int): set<Ptr> {
    if op.OpInsert? && r == 1 then s + {op.p} else if op.OpDelete? then s - {op.p} else s
  }

  /** ... and the answers a set may give. An insertion of an absent address may be refused, but then it says
      neither 0 nor 1. */
  predicate SetAnswers(s: set<Ptr>, op: Op, r: int) {
    match op
    case OpInsert(p) => (r == 0 <==> p in s)
    case OpDelete(p) => r == (if p in s then 1 else 0)
    case OpContains(p) => r == (if p in s then 1 else 0)
    case OpClean => true
  }

  lemma StepRefines(tb: Table, op: Op)
    requires Invariant(tb) && Undisturbed(tb, op)
    ensures var (tb1, r) := Apply(tb, op);
            && SetAnswers(LiveSet(tb.slots), op, r)
            && LiveSet(tb1.slots) == SetAfter(LiveSet(tb.slots), op, r)
            && (Drift(tb) == 0 ==> Drift(tb1) == 0)
  {
    match op
    case OpInsert(p) =>
      InsertEffect(tb, p);
      DriftOfInsert(tb, p);
    case OpDelete(p) => DeleteEffect(tb, p);
    case OpContains(p) => SearchPosMeaning(tb.slots, p);
    case OpClean => ResizeEffect(tb.slots, |tb.slots|, AsWritten);
  }

  lemma DriftOfInsert(tb: Table, p: Ptr)
    requires Invariant(tb)
    ensures Drift(Insert(tb, p).0) == 0 <==> (if Rebuilds(tb, p) then !RebuildAborts(tb, p) else Drift(tb) == 0)
  {
    if Rebuilds(tb, p) { InsertWithRebuild(tb, p); } else { InsertWithoutRebuild(tb, p); }
  }

  lemma ApplyKeepsSize(tb: Table, op: Op)
    requires |tb.slots| >= INIT_SIZE
    ensures |Apply(tb, op).0.slots| >= |tb.slots|
  {
  }

  ghost predicate UndisturbedRun(tb: Table, ops: seq<Op>)
    requires |tb.slots| >= INIT_SIZE
    decreases |ops|
  {
    ops == [] || (Undisturbed(tb, ops[0]) && (ApplyKeepsSize(tb, ops[0]);
                                              UndisturbedRun(Apply(tb, ops[0]).0, ops[1..])))
  }

  /** The table after a run, and its answers. */
  function Run(tb: Table, ops: seq<Op>): (r: (Table, seq<int>))
    requires |tb.slots| >= INIT_SIZE
    ensures |r.1| == |ops|
    decreases |ops|
  {
    if ops == [] then (tb, [])
    else
      var (tb1, r) := Apply(tb, ops[0]);
      ApplyKeepsSize(tb, ops[0]);
      var (tb2, rs) := Run(tb1, ops[1..]);
      (tb2, [r] + rs)
  }

  function SetRun(s: set<Ptr>, ops: seq<Op>, rs: seq<int>): set<Ptr>
    requires |rs| == |ops|
    decreases |ops|
  {
    if ops == [] then s else SetRun(SetAfter(s, ops[0], rs[0]), ops[1..], rs[1..])
  }

  predicate SetAnswersRun(s: set<Ptr>, ops: seq<Op>, rs: seq<int>)
    requires |rs| == |ops|
    decreases |ops|
  {
    ops == [] || (SetAnswers(s, ops[0], rs[0]) && SetAnswersRun(SetAfter(s, ops[0], rs[0]), ops[1..], rs[1..]))
  }

  /** Whatever happens, rebuilds aborted or not, the table stays well placed, delDummies exact, and tableSize
      at least the number of addresses. */
  lemma {:induction false} AnyRunKeepsInvariant(tb: Table, ops: seq<Op>)
    requires Invariant(tb)
    ensures Invariant(Run(tb, ops).0)
    decreases |ops|
  {
    if ops != [] {
      ApplyKeepsInvariant(tb, ops[0]);
      AnyRunKeepsInvariant(Apply(tb, ops[0]).0, ops[1..]);
    }
  }

  /** Main theorem: in every run without an aborted rebuild the table is a finite set, answer by answer, and
      tableSize is its exact size. */
  lemma {:induction false} RunRefinesSet(tb: Table, ops: seq<Op>)
    requires Invariant(tb) && Drift(tb) == 0 && UndisturbedRun(tb, ops)
    ensures var (tb1, rs) := Run(tb, ops);
            && SetAnswersRun(LiveSet(tb.slots), ops, rs)
            && LiveSet(tb1.slots) == SetRun(LiveSet(tb.slots), ops, rs)
            && tb1.size == |LiveSet(tb1.slots)|
            && tb1.dummies == |DummyAt(tb1.slots)|
    decreases |ops|
  {
    if ops != [] {
      hide Apply; hide LiveSet; hide WellPlaced; hide DummyAt;
      ApplyKeepsInvariant(tb, ops[0]);
      StepRefines(tb, ops[0]);
      RunRefinesSet(Apply(tb, ops[0]).0, ops[1..]);
    }
  }

  lemma InitIsEmptySet()
    ensures Invariant(Init()) && LiveSet(Init().slots) == {} && Drift(Init()) == 0
  {
    EmptyIsFresh(INIT_SIZE, 0, 0);
  }
}
