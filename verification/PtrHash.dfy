/** The pointer table of JyHash.c: a set of machine addresses in an open-addressing table.
    This module holds the table as a value, its three searches and its invariant. */
module PtrHash {
  import opened Arithmetic

  const WORD := 0x1_0000_0000_0000_0000   // one more than the largest uintptr_t
  const MAX_REHASH := 40

  /** Addresses a caller may pass: not NULL. (The table's own address is `Dummy` below.) */
  type Ptr = p: nat | 0 < p < WORD witness 1

  /** NULL, the table's own address used as tombstone, or a stored address. */
  datatype Slot = Free | Dummy | Live(p: Ptr)

  /** p << k in a machine word. */
  function Shifted(p: Ptr, k: nat): (r: nat)
    ensures r < WORD
  {
    if k == 0 then p else 2 * Shifted(p, k - 1) % WORD
  }

  /** The k-th slot looked at for p in a table of the given capacity. */
  function Probe(p: Ptr, k: nat, capacity: nat): (i: nat)
    requires capacity > 0
    ensures i < capacity
  {
    Shifted(p, k) % capacity
  }

  /** C's ~ on a position. */
  function Compl(x: int): int { -1 - x }

  /** The first probe at or after k that ends a search for p: a free slot or p itself; 41 if none does. */
  function Stop(t: seq<Slot>, p: Ptr, k: nat): (s: nat)
    requires |t| > 0 && k <= MAX_REHASH + 1
    ensures k <= s <= MAX_REHASH + 1
    ensures forall j :: k <= j < s ==> t[Probe(p, j, |t|)] != Free && t[Probe(p, j, |t|)] != Live(p)
    ensures s <= MAX_REHASH ==> t[Probe(p, s, |t|)] in {Free, Live(p)}
    decreases MAX_REHASH + 1 - k, t
  {
    if k > MAX_REHASH || t[Probe(p, k, |t|)] in {Free, Live(p)} then k else Stop(t, p, k + 1)
  }

  /** The slot of the first tombstone among probes k..s-1, or -1. */
  function FirstDummy(t: seq<Slot>, p: Ptr, k: nat, s: nat): (d: int)
    requires |t| > 0 && k <= s
    ensures -1 <= d < |t|
    decreases s - k, t
  {
    if k == s then -1
    else if t[Probe(p, k, |t|)] == Dummy then Probe(p, k, |t|)
    else FirstDummy(t, p, k + 1, s)
  }

  ghost predicate NoDummyBefore(t: seq<Slot>, p: Ptr, k: nat, j: int)
    requires |t| > 0
  {
    forall i :: k <= i < j ==> t[Probe(p, i, |t|)] != Dummy
  }

  lemma {:induction false} FirstDummyMeaning(t: seq<Slot>, p: Ptr, k: nat, s: nat)
    requires |t| > 0 && k <= s
    ensures var d := FirstDummy(t, p, k, s);
            && (d >= 0 ==> exists j :: k <= j < s && Probe(p, j, |t|) == d && t[d] == Dummy && NoDummyBefore(t, p, k, j))
            && (d == -1 ==> forall j :: k <= j < s ==> t[Probe(p, j, |t|)] != Dummy)
    decreases s - k
  {
    if k < s {
      FirstDummyMeaning(t, p, k + 1, s);
      if t[Probe(p, k, |t|)] == Dummy {
        assert NoDummyBefore(t, p, k, k);
      } else if FirstDummy(t, p, k, s) >= 0 {
        var j :| k + 1 <= j < s && Probe(p, j, |t|) == FirstDummy(t, p, k, s) && NoDummyBefore(t, p, k + 1, j);
        assert NoDummyBefore(t, p, k, j);
      }
    }
  }

  /** What getPos and getPosForInsert0 return. */
  function SearchPos(t: seq<Slot>, p: Ptr): int
    requires |t| > 0
  {
    var s := Stop(t, p, 0);
    if s > MAX_REHASH then Compl(|t|)
    else if t[Probe(p, s, |t|)] == Live(p) then Probe(p, s, |t|)
    else Compl(Probe(p, s, |t|))
  }

  /** What getPosForInsert returns. */
  function SearchInsertPos(t: seq<Slot>, p: Ptr): int
    requires |t| > 0
  {
    var s := Stop(t, p, 0);
    if s <= MAX_REHASH && t[Probe(p, s, |t|)] == Live(p) then Probe(p, s, |t|)
    else
      var d := FirstDummy(t, p, 0, s);
      if d >= 0 then Compl(d)
      else if s > MAX_REHASH then Compl(|t|)
      else Compl(Probe(p, s, |t|))
  }

  // ----- the set a table stands for

  ghost function LiveAt(t: seq<Slot>): set<int> { set i | 0 <= i < |t| && t[i].Live? }

  ghost function DummyAt(t: seq<Slot>): set<int> { set i | 0 <= i < |t| && t[i] == Dummy }

  ghost function LiveSet(t: seq<Slot>): set<Ptr> { set s | s in t && s.Live? :: s.p }

  /** Slot i is reached by probing for p without meeting a free slot before. */
  ghost predicate OnPath(t: seq<Slot>, p: Ptr, i: int)
    requires |t| > 0
  {
    exists k: nat :: k <= MAX_REHASH && Probe(p, k, |t|) == i && NoFreeBefore(t, p, k)
  }

  ghost predicate NoFreeBefore(t: seq<Slot>, p: Ptr, k: nat)
    requires |t| > 0
  {
    forall j :: 0 <= j < k ==> t[Probe(p, j, |t|)] != Free
  }

  /** Every stored address sits on its own probe path, and in one slot only. */
  ghost predicate WellPlaced(t: seq<Slot>)
  {
    && |t| > 0
    && (forall i :: 0 <= i < |t| && t[i].Live? ==> OnPath(t, t[i].p, i))
    && OneSlotEach(t)
  }

  ghost predicate OneSlotEach(t: seq<Slot>) {
    forall i, j :: 0 <= i < |t| && 0 <= j < |t| && t[i].Live? && t[i] == t[j] ==> i == j
  }

  lemma InLiveSet(t: seq<Slot>, i: int)
    requires 0 <= i < |t| && t[i].Live?
    ensures t[i].p in LiveSet(t)
  {
  }

  lemma StopNotAfter(t: seq<Slot>, p: Ptr, k: nat)
    requires |t| > 0 && k <= MAX_REHASH
    requires t[Probe(p, k, |t|)] == Live(p) && NoFreeBefore(t, p, k)
    ensures Stop(t, p, 0) <= k && t[Probe(p, Stop(t, p, 0), |t|)] == Live(p)
  {
    var s := Stop(t, p, 0);
    assert s < k ==> t[Probe(p, s, |t|)] != Free;
  }

  /** A search stops at p exactly when p is stored. */
  lemma StopFinds(t: seq<Slot>, p: Ptr)
    requires WellPlaced(t)
    ensures var s := Stop(t, p, 0);
            p in LiveSet(t) <==> s <= MAX_REHASH && t[Probe(p, s, |t|)] == Live(p)
  {
    if p in LiveSet(t) {
      var i :| 0 <= i < |t| && t[i] == Live(p);
      var k: nat :| k <= MAX_REHASH && Probe(p, k, |t|) == i && NoFreeBefore(t, p, k);
      StopNotAfter(t, p, k);
    }
  }

  /** A slot a search may hand out for p: on p's own path and holding nothing. */
  ghost predicate Usable(t: seq<Slot>, p: Ptr, i: int)
    requires |t| > 0
  {
    0 <= i < |t| && !t[i].Live? && OnPath(t, p, i)
  }

  ghost predicate AllProbesTaken(t: seq<Slot>, p: Ptr)
    requires |t| > 0
  {
    forall k: nat :: k <= 40 ==> t[Probe(p, k, |t|)].Live? && t[Probe(p, k, |t|)].p != p
  }

  /** getPos is exact membership; a negative answer is a free slot of p's own path or the sentinel. */
  lemma SearchPosMeaning(t: seq<Slot>, p: Ptr)
    requires WellPlaced(t)
    ensures var r := SearchPos(t, p);
            if p in LiveSet(t) then 0 <= r < |t| && t[r] == Live(p)
            else r < 0 && (r != Compl(|t|) ==> Usable(t, p, Compl(r)) && t[Compl(r)] == Free)
    ensures SearchPos(t, p) == Compl(|t|) <==> Stop(t, p, 0) > MAX_REHASH
  {
    StopFinds(t, p);
    var s := Stop(t, p, 0);
    if s <= MAX_REHASH {
      assert NoFreeBefore(t, p, s);
      assert OnPath(t, p, Probe(p, s, |t|));
    }
  }

  /** getPosForInsert agrees with getPos on stored addresses; otherwise it answers with a usable slot,
      or with the sentinel exactly when all 41 probes hold other addresses. */
  lemma SearchInsertPosMeaning(t: seq<Slot>, p: Ptr)
    requires WellPlaced(t)
    ensures var r := SearchInsertPos(t, p);
            if p in LiveSet(t) then r == SearchPos(t, p)
            else r < 0 && (r != Compl(|t|) ==> Usable(t, p, Compl(r)))
    ensures SearchInsertPos(t, p) == Compl(|t|) <==> AllProbesTaken(t, p)
  {
    SearchPosMeaning(t, p);
    StopFinds(t, p);
    var s := Stop(t, p, 0);
    var d := FirstDummy(t, p, 0, s);
    FirstDummyMeaning(t, p, 0, s);
    if d >= 0 {
      var j :| 0 <= j < s && Probe(p, j, |t|) == d;
      assert NoFreeBefore(t, p, j);
      assert OnPath(t, p, d);
    } else {
      assert forall j :: 0 <= j < s ==> t[Probe(p, j, |t|)].Live?;
    }
  }

  /** The k-th probe for p is the first that finds no stored address. */
  ghost predicate FirstGap(t: seq<Slot>, p: Ptr, k: nat)
    requires |t| > 0
  {
    k <= MAX_REHASH && !t[Probe(p, k, |t|)].Live? && forall j :: 0 <= j < k ==> t[Probe(p, j, |t|)].Live?
  }

  /** An address that is not stored goes to the first tombstone or free slot of its path. */
  lemma InsertsAtFirstGap(t: seq<Slot>, p: Ptr)
    requires WellPlaced(t) && p !in LiveSet(t) && !AllProbesTaken(t, p)
    ensures exists k: nat :: FirstGap(t, p, k) && SearchInsertPos(t, p) == Compl(Probe(p, k, |t|))
  {
    StopFinds(t, p);
    SearchInsertPosMeaning(t, p);
    var s := Stop(t, p, 0);
    var d := FirstDummy(t, p, 0, s);
    FirstDummyMeaning(t, p, 0, s);
    if d >= 0 {
      var k :| 0 <= k < s && Probe(p, k, |t|) == d && NoDummyBefore(t, p, 0, k);
      forall j | 0 <= j < k ensures t[Probe(p, j, |t|)].Live? { }
      assert FirstGap(t, p, k);
    } else {
      assert FirstGap(t, p, s);
    }
  }

  /** Writing p into a free or tombstone slot of its own path keeps the table well placed. */
  lemma PlaceKeepsPlaced(t: seq<Slot>, p: Ptr, i: int)
    requires WellPlaced(t) && p !in LiveSet(t)
    requires 0 <= i < |t| && !t[i].Live? && OnPath(t, p, i)
    ensures WellPlaced(t[i := Live(p)])
    ensures LiveSet(t[i := Live(p)]) == LiveSet(t) + {p}
    ensures LiveAt(t[i := Live(p)]) == LiveAt(t) + {i}
    ensures DummyAt(t[i := Live(p)]) == DummyAt(t) - {i}
  {
    var t' := t[i := Live(p)];
    KeepPaths(t, t');
    var k: nat :| k <= MAX_REHASH && Probe(p, k, |t|) == i && NoFreeBefore(t, p, k);
    assert NoFreeBefore(t', p, k);
    forall a, b | 0 <= a < |t| && 0 <= b < |t| && t'[a].Live? && t'[a] == t'[b]
      ensures a == b
    {
      if a == i && b != i { InLiveSet(t, b); }
      if b == i && a != i { InLiveSet(t, a); }
    }
    forall q ensures q in LiveSet(t') <==> q in LiveSet(t) + {p} {
      if q in LiveSet(t) {
        var a :| 0 <= a < |t| && t[a] == Live(q);
        InLiveSet(t', a);
      } else if q == p {
        InLiveSet(t', i);
      }
    }
  }

  lemma PlacedOnce(t: seq<Slot>)
    requires WellPlaced(t)
    ensures OneSlotEach(t)
  {
  }

  /** Paths survive as long as no slot becomes free. */
  lemma KeepPaths(t: seq<Slot>, t': seq<Slot>)
    requires |t| == |t'| > 0
    requires forall i :: 0 <= i < |t| && t[i] != Free ==> t'[i] != Free
    ensures forall p, i :: OnPath(t, p, i) ==> OnPath(t', p, i)
  {
    forall p, i | OnPath(t, p, i) ensures OnPath(t', p, i) {
      var k: nat :| k <= MAX_REHASH && Probe(p, k, |t|) == i && NoFreeBefore(t, p, k);
      assert NoFreeBefore(t', p, k);
    }
  }

  /** Overwriting a stored address with a tombstone removes exactly that address. */
  lemma RemoveKeepsPlaced(t: seq<Slot>, i: int)
    requires WellPlaced(t) && 0 <= i < |t| && t[i].Live?
    ensures WellPlaced(t[i := Dummy])
    ensures LiveSet(t[i := Dummy]) == LiveSet(t) - {t[i].p}
    ensures LiveAt(t[i := Dummy]) == LiveAt(t) - {i}
    ensures DummyAt(t[i := Dummy]) == DummyAt(t) + {i}
  {
    var t' := t[i := Dummy];
    KeepPaths(t, t');
    forall q ensures q in LiveSet(t') <==> q in LiveSet(t) - {t[i].p} {
      if q in LiveSet(t) && q != t[i].p {
        var a :| 0 <= a < |t| && t[a] == Live(q);
        InLiveSet(t', a);
      }
    }
  }

  /** There are as many stored addresses as slots holding one. */
  lemma {:induction false} LiveCount(t: seq<Slot>)
    requires OneSlotEach(t)
    ensures |LiveSet(t)| == |LiveAt(t)|
    decreases |t|
  {
    if t == [] {
      assert LiveSet(t) == {} && LiveAt(t) == {};
    } else {
      PrefixOneSlotEach(t);
      LiveCount(t[..|t| - 1]);
      LiveSetSnoc(t);
      LiveAtSnoc(t);
    }
  }

  lemma PrefixOneSlotEach(t: seq<Slot>)
    requires |t| > 0 && OneSlotEach(t)
    ensures OneSlotEach(t[..|t| - 1])
    ensures t[|t| - 1].Live? ==> t[|t| - 1].p !in LiveSet(t[..|t| - 1])
  {
  }

  lemma LiveAtSnoc(t: seq<Slot>)
    requires |t| > 0
    ensures LiveAt(t) == LiveAt(t[..|t| - 1]) + if t[|t| - 1].Live? then {|t| - 1} else {}
  {
  }

  lemma LiveSetSnoc(t: seq<Slot>)
    requires |t| > 0
    ensures LiveSet(t) == LiveSet(t[..|t| - 1]) + if t[|t| - 1].Live? then {t[|t| - 1].p} else {}
  {
    assert t == t[..|t| - 1] + [t[|t| - 1]];
  }

  // ----- the shift the code computes

  /** `Shifted` is p * 2^k modulo the word size. */
  lemma {:induction false} ShiftedIsProduct(p: Ptr, k: nat)
    ensures Shifted(p, k) == p * Pow2(k) % WORD
  {
    if k > 0 {
      ShiftedIsProduct(p, k - 1);
      var x := p * Pow2(k - 1);
      assert p * Pow2(k) == 2 * x;
      DoubleMod(x);
    }
  }

  lemma DoubleMod(x: nat)
    ensures 2 * (x % WORD) % WORD == 2 * x % WORD
  {
    var q, r := x / WORD, x % WORD;
    if 2 * r < WORD {
      ModIs(2 * x, 2 * q, 2 * r);
      ModIs(2 * r, 0, 2 * r);
    } else {
      ModIs(2 * x, 2 * q + 1, 2 * r - WORD);
      ModIs(2 * r, 1, 2 * r - WORD);
    }
  }

  lemma ModIs(a: nat, q: nat, r: nat)
    requires a == q * WORD + r && r < WORD
    ensures a % WORD == r
  {
  }
}
