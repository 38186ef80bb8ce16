/** Runs of attribute operations on one object: what is released over a whole run, which binding a lookup finds, and
    what the weak-reference counter, kept as an attribute, counts. */
module AttributeRuns {
  import opened Attributes

  const WEAK_REF_COUNT: Name := 0

  datatype Op = AddOp(a: Attr) | SetOp(a: Attr) | IncOp(node: int) | DecOp(node: int) | ClearAllOp

  datatype Run = Start | Then(before: Run, op: Op)

  datatype State = State(list: seq<Attr>, released: multiset<Resource>)

  /** The counter is an int in the value pointer: read and written with 32 bits. */
  function Wrap(x: int): (r: int)
    ensures -0x8000_0000 <= r < 0x8000_0000
    ensures -0x8000_0000 <= x < 0x8000_0000 ==> r == x
  {
    (x + 0x8000_0000) % 0x1_0000_0000 - 0x8000_0000
  }

  function Counter(l: seq<Attr>): int {
    match Get(l, WEAK_REF_COUNT)
    case Word(w) => Wrap(w)
    case Chain(_) => 0
  }

  function CounterAttr(l: seq<Attr>, node: int, change: int): Attr {
    Attr(node, WEAK_REF_COUNT, Word(Wrap(Counter(l) + change)), NO_FLAGS)
  }

  function Set(s: State, a: Attr): State {
    var (l, r) := AddOrSet(s.list, a);
    State(l, s.released + r)
  }

  function Apply(s: State, op: Op): State {
    match op
    case AddOp(a) => s.(list := Add(s.list, a))
    case SetOp(a) => Set(s, a)
    case IncOp(node) => Set(s, CounterAttr(s.list, node, 1))
    case DecOp(node) => Set(s, CounterAttr(s.list, node, -1))
    case ClearAllOp => State([], s.released + Total(s.list))
  }

  function After(r: Run): State {
    match r
    case Start => State([], multiset{})
    case Then(before, op) => Apply(After(before), op)
  }

  // ----- ownership

  function NodeTaken(l: seq<Attr>, a: Attr): multiset<Resource> {
    if Find(l, a.name) < |l| then multiset{} else multiset{Memory(a.node)}
  }

  /** What an operation takes over from its caller or allocates. */
  function TakenBy(l: seq<Attr>, op: Op): multiset<Resource> {
    match op
    case AddOp(a) => Whole(a)
    case SetOp(a) => Owned(a.value, a.flags) + NodeTaken(l, a)
    case IncOp(node) => NodeTaken(l, CounterAttr(l, node, 1))
    case DecOp(node) => NodeTaken(l, CounterAttr(l, node, -1))
    case ClearAllOp => multiset{}
  }

  function Taken(r: Run): multiset<Resource> {
    match r
    case Start => multiset{}
    case Then(before, op) => Taken(before) + TakenBy(After(before).list, op)
  }

  lemma SetConserves(s: State, a: Attr, x: Resource)
    ensures Total(s.list)[x] + s.released[x] + Owned(a.value, a.flags)[x] + NodeTaken(s.list, a)[x]
            == Total(Set(s, a).list)[x] + Set(s, a).released[x]
  {
    hide Owned;
    hide Total;
    AddOrSetConserves(s.list, a, x);
  }

  lemma ApplyConserves(s: State, op: Op, x: Resource)
    ensures Total(s.list)[x] + s.released[x] + TakenBy(s.list, op)[x]
            == Total(Apply(s, op).list)[x] + Apply(s, op).released[x]
  {
    hide Whole;
    hide AddOrSet;
    match op
    case AddOp(a) => TotalAdd(s.list, a, x);
    case SetOp(a) => SetConserves(s, a, x);
    case IncOp(node) => SetConserves(s, CounterAttr(s.list, node, 1), x);
    case DecOp(node) => SetConserves(s, CounterAttr(s.list, node, -1), x);
    case ClearAllOp =>
  }

  /** Whatever was taken is either held or released. */
  lemma {:induction false} RunConserves(r: Run, x: Resource)
    ensures Total(After(r).list)[x] + After(r).released[x] == Taken(r)[x]
  {
    hide Total;
    match r
    case Start => NothingHeld(x);
    case Then(before, op) =>
      RunConserves(before, x);
      hide TakenBy;
      ApplyConserves(After(before), op, x);
  }

  lemma NothingHeld(x: Resource)
    ensures Total([])[x] == 0
  {
  }

  /** What each operation takes over is fresh: not held at that time, and nothing twice. Memory that was freed before
      may come again. */
  ghost predicate Fresh(r: Run) {
    r.Then? ==> Fresh(r.before) && Distinct(Total(After(r.before).list) + TakenBy(After(r.before).list, r.op))
  }

  /** What one more operation releases. */
  function Releases(r: Run, op: Op, x: Resource): int { After(Then(r, op)).released[x] - After(r).released[x] }

  lemma {:induction false} OwnedIsHeld(l: seq<Attr>, i: nat, x: Resource)
    requires i < |l|
    ensures Owned(l[i].value, l[i].flags)[x] <= Total(l)[x]
  {
    hide Owned;
    if i > 0 { OwnedIsHeld(l[1..], i - 1, x); }
  }

  lemma SetReleasesHeld(s: State, a: Attr, x: Resource)
    ensures 0 <= Set(s, a).released[x] - s.released[x] <= Total(s.list)[x]
  {
    hide Owned;
    hide Total;
    var i := Find(s.list, a.name);
    if i < |s.list| { OwnedIsHeld(s.list, i, x); }
  }

  lemma ReleasesHeld(s: State, op: Op, x: Resource)
    ensures 0 <= Apply(s, op).released[x] - s.released[x] <= Total(s.list)[x]
  {
    hide Set;
    match op
    case AddOp(a) =>
    case SetOp(a) => SetReleasesHeld(s, a, x);
    case IncOp(node) => SetReleasesHeld(s, CounterAttr(s.list, node, 1), x);
    case DecOp(node) => SetReleasesHeld(s, CounterAttr(s.list, node, -1), x);
    case ClearAllOp =>
  }

  /** While only fresh values are handed over, everything is released at most once for each time it was: an operation
      releases what the list held, once, and does not keep it. */
  lemma ReleasedOnce(r: Run, op: Op)
    requires Fresh(Then(r, op))
    ensures Distinct(Total(After(Then(r, op)).list))
    ensures forall x :: 0 <= Releases(r, op, x) <= 1
    ensures forall x :: Releases(r, op, x) == 1 ==> Total(After(r).list)[x] == 1 && Total(After(Then(r, op)).list)[x] == 0
  {
    var (l, z) := (After(r).list, After(Then(r, op)));
    forall x
      ensures 0 <= Releases(r, op, x) <= 1 && Total(z.list)[x] <= 1
      ensures Releases(r, op, x) == 1 ==> Total(l)[x] == 1 && Total(z.list)[x] == 0
    {
      ApplyConserves(After(r), op, x);
      ReleasesHeld(After(r), op, x);
      assert (Total(l) + TakenBy(l, op))[x] <= 1;
    }
  }

  /** With nothing handed over twice in the whole run, nothing is released twice, nor while the list still holds it. */
  lemma ReleasedOnceEver(r: Run)
    requires Distinct(Taken(r))
    ensures forall x :: Total(After(r).list)[x] + After(r).released[x] <= 1
  {
    forall x ensures Total(After(r).list)[x] + After(r).released[x] <= 1 {
      RunConserves(r, x);
      assert Taken(r)[x] <= 1;
    }
  }

  lemma ClearAllReleases(r: Run)
    ensures forall x :: After(Then(r, ClearAllOp)).released[x] == After(r).released[x] + Total(After(r).list)[x]
  {
    hide Total;
  }

  /** Once all attributes are cleared, exactly what was taken has been released. */
  lemma ClearAllReleasesAll(r: Run)
    ensures After(Then(r, ClearAllOp)).released == Taken(r)
  {
    ClearAllReleases(r);
    hide After;
    hide Taken;
    hide Total;
    forall x ensures After(Then(r, ClearAllOp)).released[x] == Taken(r)[x] { RunConserves(r, x); }
  }

  // ----- lookups

  /** The value last bound to a name since all attributes were last cleared. */
  function Newest(r: Run, name: Name): Value {
    match r
    case Start => Word(0)
    case Then(before, op) =>
      match op
      case AddOp(a) => if a.name == name then a.value else Newest(before, name)
      case SetOp(a) => if a.name == name then a.value else Newest(before, name)
      case IncOp(_) => if name == WEAK_REF_COUNT then Word(Wrap(Counter(After(before).list) + 1)) else Newest(before, name)
      case DecOp(_) => if name == WEAK_REF_COUNT then Word(Wrap(Counter(After(before).list) - 1)) else Newest(before, name)
      case ClearAllOp => Word(0)
  }

  lemma {:induction false} GetIsNewest(r: Run, name: Name)
    ensures Get(After(r).list, name) == Newest(r, name)
  {
    hide Get;
    hide AddOrSet;
    hide Counter;
    match r
    case Start => GetNothing(name);
    case Then(before, op) =>
      GetIsNewest(before, name);
      var l := After(before).list;
      match op
      case AddOp(a) => GetAfterAdd(l, a, name);
      case SetOp(a) => GetAfterAddOrSet(l, a, name);
      case IncOp(node) => GetAfterAddOrSet(l, CounterAttr(l, node, 1), name);
      case DecOp(node) => GetAfterAddOrSet(l, CounterAttr(l, node, -1), name);
      case ClearAllOp => GetNothing(name);
  }

  lemma GetNothing(name: Name)
    ensures Get([], name) == Word(0)
  {
  }

  // ----- the weak-reference counter

  /** Increments minus decrements since all attributes were last cleared. */
  function Balance(r: Run): int {
    match r
    case Start => 0
    case Then(before, op) =>
      match op
      case IncOp(_) => Balance(before) + 1
      case DecOp(_) => Balance(before) - 1
      case ClearAllOp => 0
      case _ => Balance(before)
  }

  /** Only the counter functions bind the counter's name. */
  predicate CounterAlone(r: Run) {
    match r
    case Start => true
    case Then(before, op) => CounterAlone(before) && ((op.AddOp? || op.SetOp?) ==> op.a.name != WEAK_REF_COUNT)
  }

  lemma WrapSum(x: int, y: int)
    ensures Wrap(Wrap(x) + y) == Wrap(x + y) && Wrap(Wrap(x)) == Wrap(x)
  {
  }

  /** The counter read back after a run is the newest binding of its name. */
  lemma CounterOf(r: Run)
    ensures Counter(After(r).list) == match Newest(r, WEAK_REF_COUNT) case Word(w) => Wrap(w) case Chain(_) => 0
  {
    GetIsNewest(r, WEAK_REF_COUNT);
  }

  lemma CounterStep(before: Run, op: Op)
    requires op.IncOp? || op.DecOp?
    ensures Counter(After(Then(before, op)).list) == Wrap(Counter(After(before).list) + if op.IncOp? then 1 else -1)
  {
    CounterOf(Then(before, op));
    var x := Counter(After(before).list) + if op.IncOp? then 1 else -1;
    hide Wrap;
    WrapSum(x, 0);
    hide After;
    hide Counter;
  }

  lemma {:induction false} CounterBalances(r: Run)
    requires CounterAlone(r)
    ensures Counter(After(r).list) == Wrap(Balance(r))
  {
    hide Wrap;
    hide After;
    hide Counter;
    WrapSum(0, 0);
    CounterOf(r);
    match r
    case Start =>
    case Then(before, op) =>
      CounterOf(before);
      CounterBalances(before);
      if op.IncOp? || op.DecOp? {
        CounterStep(before, op);
        WrapSum(Balance(before), if op.IncOp? then 1 else -1);
      }
  }

  // ----- clearing one name

  /** Two attributes, each owning its value: clearing the second frees the first one's value, which stays bound and is
      freed again in the end, and never its own; clearing the first does nothing. */
  lemma ClearNameWitness()
    ensures var l := [Attr(1, 1, Word(100), Flags(true, false, false)), Attr(2, 2, Word(200), Flags(true, false, false))];
            && ClearName(l, 1) == (l, multiset{})
            && ClearName(l, 2).0 == [l[0]]
            && ClearName(l, 2).1[Memory(100)] + Total(ClearName(l, 2).0)[Memory(100)] == 2
            && ClearName(l, 2).1[Memory(200)] + Total(ClearName(l, 2).0)[Memory(200)] == 0
  {
    var h := Attr(1, 1, Word(100), Flags(true, false, false));
    var k := Attr(2, 2, Word(200), Flags(true, false, false));
    var l := [h, k];
    assert l[1..] == [k] && [k][1..] == [];
    ClearBehindList(h, [k], 2);
    assert Without([k], 2) == [];
    ClearBehindList(h, [k], 1);
    assert Without([k], 1) == [k];
    assert ClearBehind(k, [], 1) == ([k], multiset{});
    assert ClearBehind(h, [k], 1) == ([h] + [k], multiset{});
    assert [h] + [k] == l;
    assert [h][1..] == [];
  }
}
