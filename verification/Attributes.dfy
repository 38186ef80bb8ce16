/** The attribute list of a native object's header: what each operation does to the list and which resources it
    releases, and what that means over whole runs. */
module Attributes {
  type Name = nat   // names are interned: compared as pointers

  /** Memory to free, or a weak reference to delete. Address 0 is NULL. */
  datatype Resource = Memory(address: int) | Weak(address: int)

  datatype Element = Element(node: int, value: int)

  /** What the value pointer means: a plain word, or a chain of elements. */
  datatype Value = Word(w: int) | Chain(elements: seq<Element>)

  datatype Flags = Flags(owns: bool, varSize: bool, jweak: bool)

  datatype Attr = Attr(node: int, name: Name, value: Value, flags: Flags)

  const NO_FLAGS := Flags(false, false, false)

  /** Callers pass a chain if and only if they pass the flag for one. */
  predicate Fits(value: Value, flags: Flags) { flags.varSize <==> value.Chain? }

  // ----- resources

  function One(address: int, jweak: bool): multiset<Resource> {
    if address == 0 then multiset{} else if jweak then multiset{Weak(address)} else multiset{Memory(address)}
  }

  function Elements(es: seq<Element>, jweak: bool): multiset<Resource> {
    if es == [] then multiset{}
    else One(es[0].value, jweak) + One(es[0].node, false) + Elements(es[1..], jweak)
  }

  /** What an attribute's value owns: itself, or every element and element value of the chain. */
  function Owned(value: Value, flags: Flags): multiset<Resource> {
    if !flags.owns then multiset{}
    else match value
         case Word(w) => One(w, flags.jweak)
         case Chain(es) => Elements(es, flags.jweak)
  }

  function Whole(a: Attr): multiset<Resource> { Owned(a.value, a.flags) + multiset{Memory(a.node)} }

  function Total(l: seq<Attr>): multiset<Resource> { if l == [] then multiset{} else Whole(l[0]) + Total(l[1..]) }

  /** No resource twice. */
  ghost predicate Distinct(m: multiset<Resource>) { forall x :: m[x] <= 1 }

  // ----- operations

  /** The position of the first attribute of that name, or the length. */
  function Find(l: seq<Attr>, name: Name): (i: nat)
    ensures i <= |l| && (forall k :: 0 <= k < i ==> l[k].name != name) && (i < |l| ==> l[i].name == name)
  {
    if l == [] || l[0].name == name then 0 else 1 + Find(l[1..], name)
  }

  function Get(l: seq<Attr>, name: Name): Value {
    var i := Find(l, name);
    if i < |l| then l[i].value else Word(0)
  }

  function Add(l: seq<Attr>, a: Attr): seq<Attr> { [a] + l }

  /** Replaces the first attribute of that name, releasing what it owned; otherwise adds a new one. */
  function AddOrSet(l: seq<Attr>, a: Attr): (seq<Attr>, multiset<Resource>) {
    var i := Find(l, a.name);
    if i < |l| then (l[i := l[i].(value := a.value, flags := a.flags)], Owned(l[i].value, l[i].flags))
    else (Add(l, a), multiset{})
  }

  /** JyNI_ClearJyAttribute behind attribute h: each attribute of that name is unlinked and its node freed, but the
      value released is that of the attribute in front, which stays. */
  function ClearBehind(h: Attr, t: seq<Attr>, name: Name): (seq<Attr>, multiset<Resource>)
    decreases t
  {
    if t == [] then ([h], multiset{})
    else if t[0].name == name then
      var (l, released) := ClearBehind(h, t[1..], name);
      (l, released + Owned(h.value, h.flags) + multiset{Memory(t[0].node)})
    else
      var (l, released) := ClearBehind(t[0], t[1..], name);
      ([h] + l, released)
  }

  function ClearName(l: seq<Attr>, name: Name): (seq<Attr>, multiset<Resource>) {
    if l == [] then ([], multiset{}) else ClearBehind(l[0], l[1..], name)
  }

  /** What the name promises: every attribute of that name goes, with all it owns. */
  function Without(l: seq<Attr>, name: Name): (r: seq<Attr>)
    ensures forall a :: a in r <==> a in l && a.name != name
  {
    if l == [] then [] else if l[0].name == name then Without(l[1..], name) else [l[0]] + Without(l[1..], name)
  }

  function Only(l: seq<Attr>, name: Name): (r: seq<Attr>)
    ensures forall a :: a in r <==> a in l && a.name == name
  {
    if l == [] then [] else if l[0].name == name then [l[0]] + Only(l[1..], name) else Only(l[1..], name)
  }

  // ----- what a value owns, resource by resource

  predicate Holds(e: Element, a: int, values: bool) { (if values then e.value else e.node) == a }

  /** The elements whose own address or, if `values`, whose value is a. */
  function Places(es: seq<Element>, a: int, values: bool): set<nat> { set i: nat | i < |es| && Holds(es[i], a, values) }

  lemma PlacesLast(es: seq<Element>, a: int, values: bool)
    requires es != []
    ensures |Places(es, a, values)| == |Places(es[..|es| - 1], a, values)| + if Holds(es[|es| - 1], a, values) then 1 else 0
  {
    var last := |es| - 1;
    assert Places(es, a, values) == Places(es[..last], a, values) + if Holds(es[last], a, values) then {last} else {};
  }

  lemma {:induction false} ElementsLast(es: seq<Element>, jweak: bool, x: Resource)
    requires es != []
    ensures var e := es[|es| - 1];
            Elements(es, jweak)[x] == Elements(es[..|es| - 1], jweak)[x] + One(e.value, jweak)[x] + One(e.node, false)[x]
  {
    hide One;
    if |es| > 1 {
      ElementsLast(es[1..], jweak, x);
      assert es[1..][..|es| - 2] == es[..|es| - 1][1..];
    } else {
      assert es[..0] == [] && es[1..] == [];
    }
  }

  /** Memory is freed once for each element at that address and, unless values are weak references, once for each
      element with that value; weak references are deleted once for each element with that value; NULL never. */
  lemma {:induction false} ElementsMeaning(es: seq<Element>, jweak: bool, a: int)
    ensures Elements(es, jweak)[Memory(a)]
            == if a == 0 then 0 else |Places(es, a, false)| + if jweak then 0 else |Places(es, a, true)|
    ensures Elements(es, jweak)[Weak(a)] == if a == 0 || !jweak then 0 else |Places(es, a, true)|
  {
    if es == [] {
      assert Places(es, a, false) == {} == Places(es, a, true);
    } else {
      var e := es[|es| - 1];
      ElementsMeaning(es[..|es| - 1], jweak, a);
      PlacesLast(es, a, false);
      PlacesLast(es, a, true);
      OneCount(e.value, jweak, a);
      OneCount(e.node, false, a);
      ElementsLast(es, jweak, Memory(a));
      ElementsLast(es, jweak, Weak(a));
      hide Places; hide One; hide Elements;
    }
  }

  lemma OneCount(address: int, jweak: bool, a: int)
    ensures One(address, jweak)[Memory(a)] == if a != 0 && address == a && !jweak then 1 else 0
    ensures One(address, jweak)[Weak(a)] == if a != 0 && address == a && jweak then 1 else 0
  {
  }

  /** What the value of an attribute owns: nothing without the flag, else the word or all of the chain. */
  lemma OwnedMeaning(value: Value, flags: Flags, a: int)
    requires Fits(value, flags)
    ensures var m := Owned(value, flags);
            && (!flags.owns || a == 0 ==> m[Memory(a)] == 0 && m[Weak(a)] == 0)
            && (flags.owns && a != 0 && value.Word? ==>
                  && m[Memory(a)] == (if value.w == a && !flags.jweak then 1 else 0)
                  && m[Weak(a)] == (if value.w == a && flags.jweak then 1 else 0))
            && (flags.owns && a != 0 && value.Chain? ==>
                  && m[Memory(a)] == |Places(value.elements, a, false)| + (if flags.jweak then 0 else |Places(value.elements, a, true)|)
                  && m[Weak(a)] == (if flags.jweak then |Places(value.elements, a, true)| else 0))
  {
    if value.Chain? { ElementsMeaning(value.elements, flags.jweak, a); }
  }

  // ----- lookups

  /** A new binding is the one found; other names are found as before. */
  lemma GetAfterAddOrSet(l: seq<Attr>, a: Attr, name: Name)
    ensures Get(AddOrSet(l, a).0, name) == if name == a.name then a.value else Get(l, name)
  {
    var i := Find(l, a.name);
    if i < |l| {
      FindUnique(AddOrSet(l, a).0, name, if name == a.name then i else Find(l, name));
    } else {
      assert Add(l, a)[1..] == l;
    }
  }

  lemma {:induction false} FindUnique(l: seq<Attr>, name: Name, i: nat)
    requires i <= |l| && (forall k :: 0 <= k < i ==> l[k].name != name) && (i < |l| ==> l[i].name == name)
    ensures Find(l, name) == i
  {
  }

  lemma GetAfterAdd(l: seq<Attr>, a: Attr, name: Name)
    ensures Get(Add(l, a), name) == if name == a.name then a.value else Get(l, name)
  {
    assert Add(l, a)[1..] == l;
  }

  // ----- conservation

  lemma {:induction false} TotalSet(l: seq<Attr>, i: nat, a: Attr, x: Resource)
    requires i < |l|
    ensures Total(l[i := a])[x] + Whole(l[i])[x] == Total(l)[x] + Whole(a)[x]
  {
    hide Whole;
    if i == 0 {
      assert l[0 := a][1..] == l[1..];
    } else {
      assert l[i := a][1..] == l[1..][i - 1 := a];
      TotalSet(l[1..], i - 1, a, x);
    }
  }

  lemma TotalAdd(l: seq<Attr>, a: Attr, x: Resource)
    ensures Total(Add(l, a))[x] == Whole(a)[x] + Total(l)[x]
  {
    assert Add(l, a)[1..] == l;
  }

  lemma WholeParts(a: Attr, x: Resource)
    ensures Whole(a)[x] == Owned(a.value, a.flags)[x] + (if x == Memory(a.node) then 1 else 0)
  {
    hide Owned;
  }

  /** Nothing is lost and nothing released that stays: of each resource, as much as was held and comes in is held or
      released in the end. */
  lemma AddOrSetConserves(l: seq<Attr>, a: Attr, x: Resource)
    ensures var (l', released) := AddOrSet(l, a);
            Total(l)[x] + Owned(a.value, a.flags)[x] + (if Find(l, a.name) == |l| && x == Memory(a.node) then 1 else 0)
            == Total(l')[x] + released[x]
  {
    hide Owned;
    hide Total;
    hide Whole;
    var i := Find(l, a.name);
    if i < |l| {
      var b := l[i].(value := a.value, flags := a.flags);
      TotalSet(l, i, b, x);
      WholeParts(b, x);
      WholeParts(l[i], x);
    } else {
      TotalAdd(l, a, x);
      WholeParts(a, x);
    }
  }

  // ----- clearing one name

  /** The list that results is right but for the head, which is never removed. */
  lemma {:induction false} ClearBehindList(h: Attr, t: seq<Attr>, name: Name)
    ensures ClearBehind(h, t, name).0 == [h] + Without(t, name)
    decreases t
  {
    if t != [] { ClearBehindList(if t[0].name == name then h else t[0], t[1..], name); }
  }

  function Nodes(l: seq<Attr>): multiset<Resource> {
    if l == [] then multiset{} else multiset{Memory(l[0].node)} + Nodes(l[1..])
  }

  function Values(l: seq<Attr>): multiset<Resource> {
    if l == [] then multiset{} else Owned(l[0].value, l[0].flags) + Values(l[1..])
  }

  /** What single-name clearing releases besides nodes: values of attributes that stay. */
  function FrontValues(h: Attr, t: seq<Attr>, name: Name): multiset<Resource>
    decreases t
  {
    if t == [] then multiset{}
    else if t[0].name == name then FrontValues(h, t[1..], name) + Owned(h.value, h.flags)
    else FrontValues(t[0], t[1..], name)
  }

  lemma {:induction false} ReleasedParts(h: Attr, t: seq<Attr>, name: Name, x: Resource)
    ensures ClearBehind(h, t, name).1[x] == FrontValues(h, t, name)[x] + Nodes(Only(t, name))[x]
    decreases t
  {
    hide Owned;
    if t != [] {
      ReleasedParts(if t[0].name == name then h else t[0], t[1..], name, x);
      if t[0].name == name { assert Only(t, name)[1..] == Only(t[1..], name); }
    }
  }

  lemma {:induction false} TotalParts(l: seq<Attr>, name: Name, x: Resource)
    ensures Total(l)[x] == Nodes(l)[x] + Values(l)[x]
    ensures Total(l)[x] == Total(Only(l, name))[x] + Total(Without(l, name))[x]
  {
    hide Owned;
    if l != [] {
      TotalParts(l[1..], name, x);
      if l[0].name == name { assert Only(l, name)[1..] == Only(l[1..], name); }
      else { assert Without(l, name)[1..] == Without(l[1..], name); }
    }
  }

  /** Only attributes that stay are in front of removed ones. */
  lemma {:induction false} FrontStays(h: Attr, t: seq<Attr>, name: Name, x: Resource)
    ensures FrontValues(h, t, name)[x] > 0 ==> Owned(h.value, h.flags)[x] + Values(Without(t, name))[x] > 0
    decreases t
  {
    hide Owned;
    if t != [] {
      FrontStays(if t[0].name == name then h else t[0], t[1..], name, x);
      if t[0].name != name { assert Without(t, name)[1..] == Without(t[1..], name); }
    }
  }

  /** Of each resource, what a later ClearAll adds up to: values in front of removed attributes are released once more
      for each of them, values of removed attributes not at all. */
  lemma ClearNameDrift(l: seq<Attr>, name: Name, x: Resource)
    requires l != []
    ensures var (l', released) := ClearName(l, name);
            released[x] + Total(l')[x] + Values(Only(l[1..], name))[x] == Total(l)[x] + FrontValues(l[0], l[1..], name)[x]
  {
    hide Owned;
    var t := l[1..];
    ClearBehindList(l[0], t, name);
    ReleasedParts(l[0], t, name, x);
    TotalAdd(Without(t, name), l[0], x);
    TotalParts(t, name, x);
    TotalParts(Only(t, name), name, x);
  }

  /** Every attribute of that name behind the head, and the one that stays in front of it, owns nothing. */
  ghost predicate Harmless(h: Attr, t: seq<Attr>, name: Name)
    decreases t
  {
    t == [] || if t[0].name == name
               then Owned(h.value, h.flags) == multiset{} == Owned(t[0].value, t[0].flags) && Harmless(h, t[1..], name)
               else Harmless(t[0], t[1..], name)
  }

  lemma {:induction false} HarmlessParts(h: Attr, t: seq<Attr>, name: Name)
    ensures Harmless(h, t, name) <==> FrontValues(h, t, name) == multiset{} == Values(Only(t, name))
    decreases t
  {
    hide Owned;
    if t != [] {
      HarmlessParts(if t[0].name == name then h else t[0], t[1..], name);
      if t[0].name == name {
        assert Only(t, name)[1..] == Only(t[1..], name);
        SumEmpty(FrontValues(h, t[1..], name), Owned(h.value, h.flags));
        SumEmpty(Owned(t[0].value, t[0].flags), Values(Only(t[1..], name)));
      }
    }
  }

  lemma SumEmpty(a: multiset<Resource>, b: multiset<Resource>)
    ensures a + b == multiset{} <==> a == multiset{} == b
  {
    if a + b == multiset{} {
      forall x ensures a[x] == 0 && b[x] == 0 { assert (a + b)[x] == 0; }
    }
  }

  /** Clearing one name does what it promises exactly if the head has another name and no value is at stake. */
  lemma ClearNameIff(l: seq<Attr>, name: Name)
    requires Distinct(Total(l))
    ensures ClearName(l, name) == (Without(l, name), Total(Only(l, name)))
            <==> l == [] || (l[0].name != name && Harmless(l[0], l[1..], name))
  {
    hide Owned;
    if l != [] {
      var (h, t) := (l[0], l[1..]);
      ClearBehindList(h, t, name);
      if h.name == name {
        assert |ClearName(l, name).0| == |Without(l, name)| + 1;
      } else {
        ClearTailIff(h, t, name);
        HarmlessParts(h, t, name);
        assert l == Add(t, h);
      }
    }
  }

  lemma ClearTailIff(h: Attr, t: seq<Attr>, name: Name)
    requires Distinct(Total(Add(t, h))) && h.name != name
    ensures ClearBehind(h, t, name).1 == Total(Only(t, name))
            <==> FrontValues(h, t, name) == multiset{} == Values(Only(t, name))
  {
    hide Owned;
    forall x ensures ClearBehind(h, t, name).1[x] == Total(Only(t, name))[x]
                     <==> FrontValues(h, t, name)[x] == 0 == Values(Only(t, name))[x]
    {
      TailParts(h, t, name, x);
    }
    EmptyIff(FrontValues(h, t, name), Values(Only(t, name)));
    if ClearBehind(h, t, name).1 == Total(Only(t, name)) {
      forall x ensures FrontValues(h, t, name)[x] == 0 == Values(Only(t, name))[x] {
        assert ClearBehind(h, t, name).1[x] == Total(Only(t, name))[x];
      }
    }
  }

  lemma EmptyIff(a: multiset<Resource>, b: multiset<Resource>)
    ensures a == multiset{} == b <==> forall x :: a[x] == 0 && b[x] == 0
  {
  }

  lemma TailParts(h: Attr, t: seq<Attr>, name: Name, x: Resource)
    requires Distinct(Total(Add(t, h))) && h.name != name
    ensures ClearBehind(h, t, name).1[x] == Total(Only(t, name))[x]
            <==> FrontValues(h, t, name)[x] == 0 == Values(Only(t, name))[x]
  {
    hide Owned;
    ReleasedParts(h, t, name, x);
    TotalAdd(t, h, x);
    WholeParts(h, x);
    TotalParts(t, name, x);
    TotalParts(Only(t, name), name, x);
    TotalParts(Without(t, name), name, x);
    FrontStays(h, t, name, x);
    assert Total(Add(t, h))[x] <= 1;
  }
}
