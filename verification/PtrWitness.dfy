/** Two concrete runs of JyHash.c: an insertion that makes the table forget another address, and an insertion
    that is refused although the table was just enlarged. */
module PtrWitness {
  import opened Arithmetic
  import opened PtrHash
  import opened PtrResize
  import opened PtrRuns

  lemma {:induction false} Pow2Monotone(a: nat, b: nat)
    requires a <= b
    ensures Pow2(a) <= Pow2(b)
    decreases b
  {
    if a < b { Pow2Monotone(a, b - 1); }
  }

  lemma Pow2Below(k: nat)
    requires k <= MAX_REHASH
    ensures Pow2(k) <= 0x100_0000_0000
  {
    assert Pow2(8) == 0x100;
    assert Pow2(16) == 0x1_0000;
    assert Pow2(24) == 0x100_0000;
    assert Pow2(32) == 0x1_0000_0000;
    assert Pow2(40) == 0x100_0000_0000;
    Pow2Monotone(k, 40);
  }

  lemma DoubleOfMultiple(x: nat, c: nat)
    requires c in {1019, 2037} && x % c == 0
    ensures 2 * x % c == 0
  {
    if c == 1019 { Multiple1019(2 * x, 2 * (x / 1019)); } else { Multiple2037(2 * x, 2 * (x / 2037)); }
  }

  lemma Multiple1019(x: nat, q: nat)
    requires x == 1019 * q
    ensures x % 1019 == 0
  {
  }

  lemma Multiple2037(x: nat, q: nat)
    requires x == 2037 * q
    ensures x % 2037 == 0
  {
  }

  /** A small multiple of the capacity looks at slot 0 only. */
  lemma {:induction false} MultipleProbesZero(p: Ptr, capacity: nat, k: nat)
    requires capacity in {1019, 2037} && p % capacity == 0 && p < 0x80_0000 && k <= MAX_REHASH
    ensures Probe(p, k, capacity) == 0 && Shifted(p, k) < 0x80_0000 * Pow2(k)
  {
    if k > 0 {
      MultipleProbesZero(p, capacity, k - 1);
      Pow2Below(k - 1);
      DoubleOfMultiple(Shifted(p, k - 1), capacity);
      assert Shifted(p, k) == 2 * Shifted(p, k - 1);
    }
  }

  lemma MultiplesTaken(t: seq<Slot>, p: Ptr)
    requires |t| in {1019, 2037} && p % |t| == 0 && p < 0x80_0000 && t[0].Live? && t[0].p != p
    ensures AllProbesTaken(t, p) && Stop(t, p, 0) > MAX_REHASH
  {
    forall k: nat | k <= MAX_REHASH ensures Probe(p, k, |t|) == 0 { MultipleProbesZero(p, |t|, k); }
  }

  /** Two stored addresses cannot both be small multiples of the capacity. */
  lemma MultiplesClash(t: seq<Slot>, p: Ptr, q: Ptr)
    requires WellPlaced(t) && |t| in {1019, 2037} && p % |t| == 0 && q % |t| == 0 && p < 0x80_0000 && q < 0x80_0000 && p != q
    ensures !(p in LiveSet(t) && q in LiveSet(t))
  {
    if p in LiveSet(t) && q in LiveSet(t) {
      AtSlotZero(t, p);
      AtSlotZero(t, q);
    }
  }

  lemma AtSlotZero(t: seq<Slot>, p: Ptr)
    requires WellPlaced(t) && |t| in {1019, 2037} && p % |t| == 0 && p < 0x80_0000 && p in LiveSet(t)
    ensures t[0] == Live(p)
  {
    var i :| 0 <= i < |t| && t[i] == Live(p);
    var k: nat :| k <= MAX_REHASH && Probe(p, k, |t|) == i && NoFreeBefore(t, p, k);
    MultipleProbesZero(p, |t|, k);
  }

  /** An address whose first slot is free goes there. */
  lemma FirstSlotFree(tb: Table, p: Ptr)
    requires |tb.slots| >= INIT_SIZE && tb.slots[p % |tb.slots|] == Free
    ensures Insert(tb, p) == (tb.(slots := tb.slots[p % |tb.slots| := Live(p)], size := tb.size + 1), 1)
  {
    assert Probe(p, 0, |tb.slots|) == p % |tb.slots|;
    assert Stop(tb.slots, p, 0) == 0;
  }

  function Put(tb: Table, i: nat, p: Ptr): Table
    requires i < |tb.slots|
  {
    tb.(slots := tb.slots[i := Live(p)], size := tb.size + 1)
  }

  function One(): Table { Put(Init(), 1018, 3056) }
  function Two(): Table { Put(One(), 1003, 32592) }
  function Three(): Table { Put(Two(), 987, 65184) }
  function Four(): Table { Put(Three(), 0, 16304) }

  /** The slots of `Four` that matter below. */
  lemma FourSlots()
    ensures |Four().slots| == 1019 && Four().slots[0] == Live(16304) && Four().slots[1018] == Live(3056)
    ensures One().slots[1003] == Free && Two().slots[987] == Free && Three().slots[0] == Free
  {
  }

  lemma PutFirst(tb: Table, i: nat, p: Ptr)
    requires Invariant(tb) && |tb.slots| == 1019 && p % 1019 == i && tb.slots[i] == Free
    ensures Insert(tb, p) == (Put(tb, i, p), 1)
    ensures Invariant(Put(tb, i, p)) && LiveSet(Put(tb, i, p).slots) == LiveSet(tb.slots) + {p}
  {
    FirstSlotFree(tb, p);
    var k: nat := 0;
    assert !AllProbesTaken(tb.slots, p) by { assert k <= MAX_REHASH && !tb.slots[Probe(p, k, 1019)].Live?; }
    InsertWithoutRebuild(tb, p);
  }

  /** Four insertions into the initial table lead to `Four`. */
  lemma FourInserted()
    ensures Insert(Init(), 3056) == (One(), 1) && Insert(One(), 32592) == (Two(), 1)
    ensures Insert(Two(), 65184) == (Three(), 1) && Insert(Three(), 16304) == (Four(), 1)
    ensures Invariant(Four()) && LiveSet(Four().slots) == {3056, 32592, 65184, 16304}
  {
    InitIsEmptySet();
    FourSlots();
    hide Insert; hide Invariant; hide LiveSet; hide WellPlaced; hide Drift;
    PutFirst(Init(), 1018, 3056);
    PutFirst(One(), 1003, 32592);
    PutFirst(Two(), 987, 65184);
    PutFirst(Three(), 0, 16304);
  }

  lemma UndisturbedInsert(tb: Table, p: Ptr, rest: seq<Op>)
    requires |tb.slots| == 1019 && tb.slots[p % 1019] == Free && |Insert(tb, p).0.slots| == 1019
    requires UndisturbedRun(Insert(tb, p).0, rest)
    ensures UndisturbedRun(tb, [OpInsert(p)] + rest)
    ensures Run(tb, [OpInsert(p)] + rest).0 == Run(Insert(tb, p).0, rest).0
  {
    assert Probe(p, 0, 1019) == p % 1019;
    assert !AllProbesTaken(tb.slots, p);
    hide Insert; hide AllProbesTaken;
    assert ([OpInsert(p)] + rest)[1..] == rest;
  }

  /** A run without an aborted rebuild leads to `Four`. */
  lemma FourReached()
    ensures UndisturbedRun(Init(), [OpInsert(3056), OpInsert(32592), OpInsert(65184), OpInsert(16304)])
    ensures Run(Init(), [OpInsert(3056), OpInsert(32592), OpInsert(65184), OpInsert(16304)]).0 == Four()
  {
    FourInserted();
    FourSlots();
    SmallTables();
    hide Insert; hide Invariant; hide LiveSet; hide One; hide Two; hide Three; hide Four; hide UndisturbedRun; hide Run;
    hide Init;
    RunOfNothing(Four());
    var (a, b, c, d) := (OpInsert(3056), OpInsert(32592), OpInsert(65184), OpInsert(16304));
    UndisturbedInsert(Three(), 16304, []);
    assert [d] + [] == [d];
    UndisturbedInsert(Two(), 65184, [d]);
    assert [c] + [d] == [c, d];
    UndisturbedInsert(One(), 32592, [c, d]);
    assert [b] + [c, d] == [b, c, d];
    UndisturbedInsert(Init(), 3056, [b, c, d]);
    assert [a] + [b, c, d] == [a, b, c, d];
  }

  lemma SmallTables()
    ensures |Init().slots| == |One().slots| == |Two().slots| == |Three().slots| == |Four().slots| == 1019
    ensures Init().slots[3056 % 1019] == Free
  {
  }

  lemma RunOfNothing(tb: Table)
    requires |tb.slots| >= INIT_SIZE
    ensures UndisturbedRun(tb, []) && Run(tb, []).0 == tb
  {
  }

  lemma AddressesBelow(t: seq<Slot>, bound: nat)
    requires forall p :: p in LiveSet(t) ==> p < bound
    ensures forall i :: 0 <= i < |t| && t[i].Live? ==> t[i].p < bound
  {
    forall i | 0 <= i < |t| && t[i].Live? ensures t[i].p < bound {
      assert t[i] in t && t[i].p in LiveSet(t);
    }
  }

  lemma StaysSmall(was: seq<Slot>)
    requires OneSlotEach(was) && |was| > 0 && forall p :: p in LiveSet(was) ==> p < 65185
    ensures var z := Resize(was, 2037, AsWritten);
            |z.tb.slots| <= 71800 && (z.aborts == 0 ==> |z.tb.slots| == 2037)
  {
    EmptyIsFresh(2037, 0, 0);
    AddressesBelow(was, 65185);
    CapacityBound(was, |was|, Attempt(2037, 0, 0), AsWritten, 65185);
  }

  lemma ClashAborts(was: seq<Slot>)
    requires OneSlotEach(was) && |was| > 0 && forall p :: p in LiveSet(was) ==> p < 65185
    requires 32592 in LiveSet(was) && 65184 in LiveSet(was)
    ensures Resize(was, 2037, AsWritten).aborts > 0
  {
    hide Resize; hide LiveSet; hide OneSlotEach;
    var z := Resize(was, 2037, AsWritten);
    StaysSmall(was);
    ResizeEffect(was, 2037, AsWritten);
    if z.aborts == 0 { MultiplesClash(z.tb.slots, 32592, 65184); }
  }

  /** Inserting 32608 into `Four` aborts its rebuild: at capacity 2037 the stored 32592 and 65184 both look at
      slot 0 only. The retry passes over the last slot, and the table forgets 3056. */
  lemma InsertForgetsAddress()
    ensures RebuildAborts(Four(), 32608)
    ensures 3056 in LiveSet(Four().slots) && 3056 !in LiveSet(Insert(Four(), 32608).0.slots)
  {
    hide Four; hide Three; hide Two; hide One; hide Put; hide Init;
    hide Insert; hide Resize; hide AllProbesTaken; hide LiveSet; hide WellPlaced; hide Stop; hide Drift;
    FourInserted();
    FourSlots();
    MultiplesTaken(Four().slots, 32608);
    ForgetsLastSlot(Four(), 32608, 3056);
  }

  lemma ForgetsLastSlot(tb: Table, p: Ptr, last: Ptr)
    requires Invariant(tb) && |tb.slots| == 1019 && AllProbesTaken(tb.slots, p)
    requires forall p :: p in LiveSet(tb.slots) ==> p < 65185
    requires 32592 in LiveSet(tb.slots) && 65184 in LiveSet(tb.slots) && tb.slots[1018] == Live(last) && last != p
    ensures RebuildAborts(tb, p)
    ensures last !in LiveSet(Insert(tb, p).0.slots)
  {
    hide Insert; hide Resize; hide AllProbesTaken; hide LiveSet; hide WellPlaced; hide OneSlotEach;
    PlacedOnce(tb.slots);
    StaysSmall(tb.slots);
    ClashAborts(tb.slots);
    SmallAfterInsert(tb, p);
    InsertEffect(tb, p);
  }

  lemma SmallAfterInsert(tb: Table, p: Ptr)
    requires Invariant(tb) && AllProbesTaken(tb.slots, p)
    ensures |Insert(tb, p).0.slots| == |Rebuilt(tb).slots|
  {
    RebuildEntered(tb, p);
    hide Insert; hide Resize; hide AllProbesTaken; hide LiveSet; hide WellPlaced;
  }

  function Lone(): Table { Put(Init(), 0, 4151406) }

  lemma LoneInserted()
    ensures Insert(Init(), 4151406) == (Lone(), 1) && Invariant(Lone()) && LiveSet(Lone().slots) == {4151406}
    ensures |Lone().slots| == 1019 && Lone().slots[0] == Live(4151406)
  {
    InitIsEmptySet();
    PutFirst(Init(), 0, 4151406);
  }

  lemma FirstProbeFree(tb: Table, p: Ptr)
    requires |tb.slots| >= INIT_SIZE && tb.slots[Probe(p, 0, |tb.slots|)] == Free
    ensures Insert0(tb, p) ==
            (tb.(slots := tb.slots[Probe(p, 0, |tb.slots|) := Live(p)], size := tb.size + 1), 1)
  {
    assert Stop(tb.slots, p, 0) == 0;
  }

  /** The last round of a resize: old slot 0, whose address finds its first slot free. */
  lemma LastRound(was: seq<Slot>, tb: Table, p: Ptr)
    requires |was| > 0 && was[0] == Live(p) && |tb.slots| >= INIT_SIZE && tb.slots[Probe(p, 0, |tb.slots|)] == Free
    ensures ResizeFrom(was, 1, tb, AsWritten) ==
            Resized(tb.(slots := tb.slots[Probe(p, 0, |tb.slots|) := Live(p)], size := tb.size + 1), 0)
  {
    FirstProbeFree(tb, p);
    hide Insert0; hide Attempt; hide Stop;
    var s := Round(was, 1, tb, AsWritten);
    assert s.n == 0 && !s.aborted;
    assert ResizeFrom(was, s.n, s.tb, AsWritten) == Resized(s.tb, 0);
  }

  lemma LoneRebuilt()
    ensures var r := Resize(Lone().slots, 2037, AsWritten);
            r.aborts == 0 && r.tb.slots == Empty(2037)[0 := Live(4151406)]
  {
    var was := Lone().slots;
    var tb := Attempt(2037, 0, 0);
    LoneSlots();
    assert Probe(4151406, 0, 2037) == 0;
    hide Lone; hide ResizeFrom; hide Probe;
    SkipsHoles(was, 1, |was|, tb, AsWritten);
    LastRound(was, tb, 4151406);
  }

  lemma LoneSlots()
    ensures |Lone().slots| == 1019 && Lone().slots[0] == Live(4151406)
    ensures forall i :: 1 <= i < 1019 ==> !Lone().slots[i].Live?
  {
  }

  /** At capacity 1019 and again at 2037, 2075703 and 4151406 look at slot 0 only: with 4151406 stored, the
      insertion of 2075703 enlarges the table and is still refused, answering -2038. */
  lemma InsertRefusedAfterResize()
    ensures Insert(Init(), 4151406) == (Lone(), 1)
    ensures Insert(Lone(), 2075703).1 == -2038 && !RebuildAborts(Lone(), 2075703)
    ensures Refused(Lone(), 2075703) && 2075703 !in LiveSet(Insert(Lone(), 2075703).0.slots)
  {
    LoneInserted();
    LoneRebuilt();
    MultiplesTaken(Lone().slots, 2075703);
    MultiplesTaken(Rebuilt(Lone()).slots, 2075703);
    RefusedAnswer(Lone(), 2075703);
  }

  lemma RefusedAnswer(tb: Table, p: Ptr)
    requires Invariant(tb) && Rebuilds(tb, p) && |Rebuilt(tb).slots| == 2037 && Stop(Rebuilt(tb).slots, p, 0) > MAX_REHASH
    ensures Refused(tb, p) && Insert(tb, p).1 == -2038 && p !in LiveSet(Insert(tb, p).0.slots)
  {
    hide Insert; hide Insert0; hide Resize; hide AllProbesTaken; hide LiveSet; hide Stop;
    RebuildEntered(tb, p);
    RebuildLeavesOut(tb, p);
    RebuiltEffect(tb, p);
    hide WellPlaced; hide OneSlotEach; hide DummyAt; hide RebuildAborts; hide Lost;
    Insert0Effect(Rebuilt(tb), p);
    FreshExhausted(Rebuilt(tb), p);
  }
}
