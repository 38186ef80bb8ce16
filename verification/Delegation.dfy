/** Whether operations on a native object are delegated to its Java counterpart (JyNI_GetJythonDelegate). For types
    the decision recurses into the base types while looping over them; it amounts to a rule on each ancestor alone. */
module Delegation {
  import opened Basics
  import opened Mirror
  import opened MirrorRuns

  /** What the decision reads of a type. `special`: a static singleton that is not built in. `converts`: converting
      it to Java succeeds. `hasClass`: a Java class is known for it. */
  datatype Type = Type(flags: set<Flag>, heap: bool, exception: bool, special: bool, builtin: bool, hasClass: bool,
                       converts: bool)

  /** A type and its bases along tp_base. */
  datatype Chain = NoBase | Derived(t: Type, base: Chain)

  datatype Object = Plain(flags: set<Flag>, special: bool, converts: bool) | TypeObject(chain: Chain)

  datatype Delegate = NoDelegate | Converted | ByClass

  predicate JyDelegate(flags: set<Flag>) { (Truncate in flags || Subtype in flags) && CPeer !in flags }

  predicate JyMaybeDelegateType(flags: set<Flag>) { Subtype !in flags && CPeer !in flags && HasHandle in flags }

  function Convert(converts: bool): Delegate { if converts then Converted else NoDelegate }

  // ----- the rule

  /** An ancestor that does not prevent delegation, judged by itself. */
  predicate Allows(t: Type) {
    if t.heap then
      !t.special && !t.exception && if JyDelegate(t.flags) || JyMaybeDelegateType(t.flags) then t.converts else t.hasClass
    else t.builtin
  }

  predicate AllAllow(c: Chain) { c.Derived? ==> Allows(c.t) && AllAllow(c.base) }

  function Rule(c: Chain): Delegate
    requires c.Derived?
  {
    var t := c.t;
    if t.special || t.exception then NoDelegate
    else if t.heap && (JyDelegate(t.flags) || (JyMaybeDelegateType(t.flags) && AllAllow(c.base))) then Convert(t.converts)
    else if t.hasClass then ByClass
    else NoDelegate
  }

  /** What every ancestor of a type must be for it to be delegated because of its handle: a built-in static type; or a
      heap type without exception that converts, if it stands for its Java counterpart, and else has a Java class. */
  ghost predicate GoodAncestor(t: Type) {
    && (!t.heap ==> t.builtin)
    && (t.heap ==> !t.special && !t.exception
                   && if Mirrors(t) || HandleOnly(t) then t.converts else t.hasClass)
  }

  ghost predicate Mirrors(t: Type) { CPeer !in t.flags && (Truncate in t.flags || Subtype in t.flags) }

  ghost predicate HandleOnly(t: Type) { CPeer !in t.flags && Subtype !in t.flags && HasHandle in t.flags }

  /** All ancestors above c are good. */
  lemma {:induction false} AllAllowAbove(c: Chain)
    ensures AllAllow(c) <==> forall above :: Above(c, above) && above.Derived? ==> GoodAncestor(above.t)
  {
    if c.Derived? {
      AllAllowAbove(c.base);
      assert Above(c, c);
      forall above | Above(c.base, above) && above.Derived? ensures Above(c, above) { }
    }
  }

  /** Which delegate a type has, from the flags alone. A static type is delegated through its Java class or not at all. */
  lemma RuleIff(c: Chain)
    requires c.Derived?
    ensures var t := c.t; var d := Rule(c);
            var asObject := t.heap && (Mirrors(t) || (HandleOnly(t)
                            && forall above :: Above(c.base, above) && above.Derived? ==> GoodAncestor(above.t)));
            && (d == Converted <==> !t.special && !t.exception && asObject && t.converts)
            && (d == ByClass <==> !t.special && !t.exception && !asObject && t.hasClass)
            && (!t.heap ==> (d == ByClass <==> t.hasClass && !t.special && !t.exception) && d != Converted)
  {
    AllAllowAbove(c.base);
  }

  // ----- the decision as it is made

  /** What the loop asks of a base: to have a delegate of its own, or to be built in. */
  predicate Passes(c: Chain)
    requires c.Derived?
  {
    if c.t.heap then Rule(c) != NoDelegate else c.t.builtin
  }

  predicate AllPass(c: Chain) { c.Derived? ==> Passes(c) && AllPass(c.base) }

  /** Asking every base recursively is the same as judging each by itself. */
  lemma {:induction false} AllPassIffAllow(c: Chain)
    ensures AllPass(c) <==> AllAllow(c)
  {
    if c.Derived? { AllPassIffAllow(c.base); }
  }

  /** The recursive decision for a type; it visits the bases one by one and asks each in turn. */
  method DelegateOfType(c: Chain) returns (d: Delegate)
    requires c.Derived?
    ensures d == Rule(c)
    decreases c
  {
    var t := c.t;
    if t.special { return NoDelegate; }
    if t.exception { return NoDelegate; }
    if t.heap {
      if JyDelegate(t.flags) {
        return Convert(t.converts);
      } else if JyMaybeDelegateType(t.flags) {
        AllPassIffAllow(c.base);
        var base := c.base;
        while base.Derived?
          invariant base < c && (AllPass(c.base) <==> AllPass(base))
          decreases base
        {
          if base.t.heap {
            var delegate := DelegateOfType(base);
            if delegate == NoDelegate { break; }
          } else {
            if !base.t.builtin { break; }
          }
          base := base.base;
        }
        if base.NoBase? { return Convert(t.converts); }
      }
    }
    if t.hasClass { return ByClass; }
    return NoDelegate;
  }

  method GetJythonDelegate(v: Object) returns (d: Delegate)
    requires v.TypeObject? ==> v.chain.Derived?
    ensures v.Plain? ==> d == if !v.special && JyDelegate(v.flags) then Convert(v.converts) else NoDelegate
    ensures v.TypeObject? ==> d == Rule(v.chain)
  {
    d := NoDelegate;
    match v
    case Plain(flags, special, converts) =>
      if !special && JyDelegate(flags) { d := Convert(converts); }
    case TypeObject(chain) =>
      d := DelegateOfType(chain);
  }

  // ----- consequences

  /** One base in the way decides for every type below it: none of them is delegated as a converted object unless its
      own flags say so, whatever the types in between. */
  lemma {:induction false} BlockedBelow(c: Chain, above: Chain)
    requires c.Derived? && above.Derived? && Above(c.base, above) && !Allows(above.t) && !JyDelegate(c.t.flags)
    ensures Rule(c) != Converted
  {
    NotAllAllow(c.base, above);
  }

  predicate Above(c: Chain, above: Chain) { c == above || (c.Derived? && Above(c.base, above)) }

  lemma {:induction false} NotAllAllow(c: Chain, above: Chain)
    requires above.Derived? && Above(c, above) && !Allows(above.t)
    ensures !AllAllow(c)
  {
    if c != above { NotAllAllow(c.base, above); }
  }

  /** A truncated object is delegated, but no longer once its Java counterpart was collected and replaced: cleaning up
      the header has erased the flag the decision rests on. */
  lemma ReplacedNotDelegated(s: State, n: NId, next: JId)
    requires Good(s) && Idle(s, n) && Yields(s, n, next) && s.natives[n].typed
    requires s.natives[n].jy.WeakTo? && s.natives[n].jy.j !in s.alive
    requires Truncate in s.natives[n].flags && CPeer !in s.natives[n].flags
    ensures JyDelegate(s.natives[n].flags) && !JyDelegate(ToJava(s, n, next).0.natives[n].flags)
  {
    DeadReplaced(s, n, next);
  }
}
