/** The attribute list as the program keeps it: nodes linked in place, rewired and freed by loops. Each method is
    proved to do what the function of Attributes that specifies it says. */
module AttributeLists {
  import opened Attributes
  import opened AttributeRuns
  import opened Basics

  class Node {
    const address: int
    const name: Name
    var value: Value
    var flags: Flags
    var next: Node?

    constructor (address: int, name: Name, value: Value, flags: Flags, next: Node?)
      ensures this.address == address && this.name == name && this.value == value && this.flags == flags
      ensures this.next == next
    {
      this.address, this.name, this.value, this.flags, this.next := address, name, value, flags, next;
    }

    ghost function View(): Attr
      reads this
    {
      Attr(address, name, value, flags)
    }
  }

  class JyObject {
    var attr: Node?
    ghost var nodes: seq<Node>
    ghost var list: seq<Attr>
    ghost var released: multiset<Resource>

    /** `list` is what the linked nodes hold, in order. */
    ghost predicate Valid()
      reads this`attr, this`nodes, this`list, nodes
    {
      Linked() && Shown()
    }

    ghost predicate Linked()
      reads this`attr, this`nodes, nodes
    {
      && attr == At(nodes, 0)
      && (forall i :: 0 <= i < |nodes| ==> nodes[i].next == At(nodes, i + 1))
      && NoDuplicates(nodes)
    }

    ghost predicate Shown()
      reads this`nodes, this`list, nodes
    {
      && |nodes| == |list|
      && (forall i :: 0 <= i < |nodes| ==> nodes[i].View() == list[i])
      && (forall i :: 0 <= i < |list| ==> Fits(list[i].value, list[i].flags))
    }

    lemma NodeAt(i: nat)
      requires Valid()
      ensures attr == At(nodes, 0) && |nodes| == |list|
      ensures i < |nodes| ==>
        nodes[i].next == At(nodes, i + 1) && nodes[i].View() == list[i] && Fits(list[i].value, list[i].flags)
    {
    }

    constructor ()
      ensures Valid() && list == [] && released == multiset{}
    {
      attr, nodes, list, released := null, [], [], multiset{};
    }

    method Free(address: int)
      modifies this`released
      ensures released == old(released) + One(address, false)
    {
      released := released + One(address, false);
    }

    method DeleteWeakGlobalRef(address: int)
      modifies this`released
      ensures released == old(released) + One(address, true)
    {
      released := released + One(address, true);
    }

    method FreeNode(node: Node)
      modifies this`released
      ensures released == old(released) + multiset{Memory(node.address)}
    {
      released := released + multiset{Memory(node.address)};
    }

    method ClearAttributeValue(att: Node)
      requires Fits(att.value, att.flags)
      modifies this`released
      ensures released == old(released) + Owned(att.value, att.flags)
    {
      if att.flags.owns {
        match att.value
        case Chain(elements) =>
          var elem := elements;
          while elem != []
            invariant released + Elements(elem, att.flags.jweak) == old(released) + Elements(elements, att.flags.jweak)
          {
            ghost var before := released;
            var tmp := elem[0];
            elem := elem[1..];
            if att.flags.jweak { DeleteWeakGlobalRef(tmp.value); } else { Free(tmp.value); }
            Free(tmp.node);
            assert released == before + (One(tmp.value, att.flags.jweak) + One(tmp.node, false));
          }
        case Word(w) =>
          if att.flags.jweak { DeleteWeakGlobalRef(w); } else { Free(w); }
      }
    }

    method FreeAttribute(att: Node)
      requires Fits(att.value, att.flags)
      modifies this`released
      ensures released == old(released) + Whole(att.View())
    {
      ClearAttributeValue(att);
      FreeNode(att);
      AddedTwice(old(released), Owned(att.value, att.flags), multiset{Memory(att.address)});
    }

    method ClearAttributes()
      requires Valid()
      modifies this
      ensures Valid() && list == [] && released == old(released) + Total(old(list))
    {
      hide Whole;
      var nxt := attr;
      ghost var i := 0;
      while nxt != null
        invariant Valid() && i <= |nodes| && nxt == At(nodes, i) && list == old(list)
        invariant released + Total(list[i..]) == old(released) + Total(list)
        decreases |nodes| - i
        modifies this`released
      {
        ghost var before := released;
        TotalFrom(list, i);
        var nxt2 := nxt.next;
        FreeAttribute(nxt);
        AddedTwice(before, Whole(list[i]), Total(list[i + 1..]));
        nxt := nxt2;
        i := i + 1;
      }
      attr, nodes, list := null, [], [];
    }

    method ClearAttribute(name: Name)
      requires Valid()
      modifies this, nodes
      ensures Valid()
      ensures list == ClearName(old(list), name).0
      ensures released == old(released) + ClearName(old(list), name).1
    {
      hide ClearBehind;
      hide Owned;
      hide Valid;
      NodeAt(0);
      if attr == null { return; }
      var nxt := attr;
      ghost var i := 0;
      assert list == [list[0]] + list[1..];
      while nxt.next != null
        invariant Valid() && |list| == |nodes| && i < |nodes| && nxt == nodes[i] && (forall n :: n in nodes ==> n in old(nodes))
        invariant list[..i] + Rest(list, i, name).0 == ClearName(old(list), name).0
        invariant released + Rest(list, i, name).1 == old(released) + ClearName(old(list), name).1
        decreases |nodes| - i
      {
        NodeAt(i);
        NodeAt(i + 1);
        var nxt2 := nxt.next;
        if nxt2.name == name {
          assert nodes[i] in nodes;
          RestRemoved(list, i, name);
          ghost var (before, frees) := (released, Rest(Cut(list, i + 1), i, name).1);
          Unlink(nxt, nxt2, i);
          ClearAttributeValue(nxt);
          FreeNode(nxt2);
          Regroup(before, Owned(nxt.value, nxt.flags), multiset{Memory(nxt2.address)}, frees);
        } else {
          RestKept(list, i, name);
          nxt := nxt2;
          i := i + 1;
        }
      }
      NodeAt(i);
      RestEmpty(list, i, name);
    }

    /** Takes nxt2 out of the list behind nxt. */
    method Unlink(nxt: Node, nxt2: Node, ghost i: nat)
      requires Valid() && i + 1 < |nodes| && nxt == nodes[i] && nxt2 == nodes[i + 1]
      modifies this`nodes, this`list, nxt`next
      ensures Valid() && nodes == Cut(old(nodes), i + 1) && list == Cut(old(list), i + 1)
      ensures nxt.value == old(nxt.value) && nxt.flags == old(nxt.flags)
    {
      hide NoDuplicates;
      ghost var (was, wasList) := (nodes, list);
      OnlyAt(was, i);
      CutDistinct(was, i + 1);
      nxt.next := nxt2.next;
      nodes, list := Cut(nodes, i + 1), Cut(list, i + 1);
      LinkedAfter(was, i);
      ShownAfter(was, wasList, i);
    }

    lemma LinkedAfter(was: seq<Node>, i: nat)
      requires i + 1 < |was| && NoDuplicates(was) && nodes == Cut(was, i + 1) && attr == was[0]
      requires forall k :: 0 <= k < |was| && k != i ==> was[k].next == At(was, k + 1)
      requires was[i].next == At(was, i + 2)
      ensures Linked()
    {
      CutDistinct(was, i + 1);
      OnlyAt(was, i);
      CutAt(was, i + 1);
      hide NoDuplicates;
      hide Cut;
    }

    lemma ShownAfter(was: seq<Node>, wasList: seq<Attr>, i: nat)
      requires i < |was| - 1 && |was| == |wasList| && nodes == Cut(was, i + 1) && list == Cut(wasList, i + 1)
      requires forall k :: 0 <= k < |was| ==> was[k].View() == wasList[k] && Fits(wasList[k].value, wasList[k].flags)
      ensures Shown()
    {
      CutAt(was, i + 1);
      CutAt(wasList, i + 1);
      hide Cut;
    }

    method GetAttribute(name: Name) returns (value: Value)
      requires Valid()
      ensures value == Get(list, name)
    {
      var nxt := attr;
      ghost var i := 0;
      while nxt != null
        invariant i <= |nodes| && nxt == At(nodes, i)
        invariant forall k :: 0 <= k < i ==> list[k].name != name
        decreases |nodes| - i
      {
        if nxt.name == name {
          FindUnique(list, name, i);
          return nxt.value;
        }
        nxt := nxt.next;
        i := i + 1;
      }
      FindUnique(list, name, i);
      return Word(0);
    }

    method HasAttribute(name: Name) returns (has: bool)
      requires Valid()
      ensures has <==> exists a :: a in list && a.name == name
    {
      var nxt := attr;
      ghost var i := 0;
      while nxt != null
        invariant i <= |nodes| && nxt == At(nodes, i)
        invariant forall k :: 0 <= k < i ==> list[k].name != name
        decreases |nodes| - i
      {
        if nxt.name == name {
          assert list[i] in list;
          return true;
        }
        nxt := nxt.next;
        i := i + 1;
      }
      return false;
    }

    /** `address`: what malloc returns. */
    method AddAttributeWithFlags(name: Name, value: Value, flags: Flags, address: int)
      requires Valid() && Fits(value, flags)
      modifies this
      ensures Valid() && list == Add(old(list), Attr(address, name, value, flags)) && released == old(released)
      ensures |nodes| > 0 && fresh(nodes[0]) && nodes == [nodes[0]] + old(nodes)
    {
      var att := new Node(address, name, value, flags, attr);
      attr := att;
      nodes, list := [att] + nodes, Add(list, att.View());
    }

    method AddOrSetAttributeWithFlags(name: Name, value: Value, flags: Flags, address: int)
      requires Valid() && Fits(value, flags)
      modifies this, nodes
      ensures Valid()
      ensures list == AddOrSet(old(list), Attr(address, name, value, flags)).0
      ensures released == old(released) + AddOrSet(old(list), Attr(address, name, value, flags)).1
    {
      var nxt := attr;
      ghost var i := 0;
      while nxt != null
        invariant Valid() && i <= |nodes| && nxt == At(nodes, i)
        invariant list == old(list) && released == old(released) && nodes == old(nodes)
        invariant forall k :: 0 <= k < i ==> list[k].name != name
        decreases |nodes| - i
      {
        if nxt.name == name {
          FindUnique(list, name, i);
          ClearAttributeValue(nxt);
          SetValue(nxt, value, flags, i);
          return;
        }
        nxt := nxt.next;
        i := i + 1;
      }
      FindUnique(list, name, i);
      AddAttributeWithFlags(name, value, flags, address);
    }

    method SetValue(att: Node, value: Value, flags: Flags, ghost i: nat)
      requires Valid() && i < |nodes| && att == nodes[i] && Fits(value, flags)
      modifies this`list, att`value, att`flags
      ensures Valid() && list == old(list)[i := old(list)[i].(value := value, flags := flags)]
    {
      att.value := value;
      att.flags := flags;
      list := list[i := list[i].(value := value, flags := flags)];
    }

    method IncWeakRefCount(address: int) returns (refCount: int)
      requires Valid()
      modifies this, nodes
      ensures Valid() && State(list, released) == Apply(State(old(list), old(released)), IncOp(address))
      ensures refCount == Counter(list)
    {
      hide Wrap;
      hide Valid;
      hide AddOrSet;
      hide Get;
      var value := GetAttribute(WEAK_REF_COUNT);
      refCount := Wrap((if value.Word? then Wrap(value.w) else 0) + 1);
      assert CounterAttr(list, address, 1).value == Word(refCount);
      AddOrSetAttributeWithFlags(WEAK_REF_COUNT, Word(refCount), NO_FLAGS, address);
      GetAfterAddOrSet(old(list), CounterAttr(old(list), address, 1), WEAK_REF_COUNT);
    }

    /** Reports a negative count as -1, but stores it. */
    method DecWeakRefCount(address: int) returns (refCount: int)
      requires Valid()
      modifies this, nodes
      ensures Valid() && State(list, released) == Apply(State(old(list), old(released)), DecOp(address))
      ensures refCount == if Counter(list) < 0 then -1 else Counter(list)
    {
      hide Wrap;
      hide Valid;
      hide AddOrSet;
      hide Get;
      var value := GetAttribute(WEAK_REF_COUNT);
      refCount := Wrap((if value.Word? then Wrap(value.w) else 0) - 1);
      assert CounterAttr(list, address, -1).value == Word(refCount);
      AddOrSetAttributeWithFlags(WEAK_REF_COUNT, Word(refCount), NO_FLAGS, address);
      GetAfterAddOrSet(old(list), CounterAttr(old(list), address, -1), WEAK_REF_COUNT);
      if refCount < 0 { refCount := -1; }
    }
  }

  lemma AddedTwice(a: multiset<Resource>, b: multiset<Resource>, c: multiset<Resource>)
    ensures a + b + c == a + (b + c)
  {
  }

  lemma TotalFrom(l: seq<Attr>, i: nat)
    requires i < |l|
    ensures Total(l[i..]) == Whole(l[i]) + Total(l[i + 1..])
  {
    assert l[i..][1..] == l[i + 1..];
  }

  /** What is left to do when the loop is at attribute i. */
  ghost function Rest(l: seq<Attr>, i: nat, name: Name): (seq<Attr>, multiset<Resource>)
    requires i < |l|
  {
    ClearBehind(l[i], l[i + 1..], name)
  }

  lemma RestRemoved(l: seq<Attr>, i: nat, name: Name)
    requires i + 1 < |l| && l[i + 1].name == name
    ensures var r := Rest(Cut(l, i + 1), i, name);
            Rest(l, i, name) == (r.0, r.1 + Owned(l[i].value, l[i].flags) + multiset{Memory(l[i + 1].node)})
    ensures Cut(l, i + 1)[..i] == l[..i]
  {
    assert l[i + 1..][1..] == Cut(l, i + 1)[i + 1..];
  }

  lemma RestKept(l: seq<Attr>, i: nat, name: Name)
    requires i + 1 < |l| && l[i + 1].name != name
    ensures Rest(l, i, name).1 == Rest(l, i + 1, name).1
    ensures l[..i] + Rest(l, i, name).0 == l[..i + 1] + Rest(l, i + 1, name).0
  {
    assert l[i + 1..][1..] == l[i + 2..];
  }

  lemma RestEmpty(l: seq<Attr>, i: nat, name: Name)
    requires i + 1 == |l|
    ensures l[..i] + Rest(l, i, name).0 == l && Rest(l, i, name).1 == multiset{}
  {
  }

  lemma Regroup(a: multiset<Resource>, b: multiset<Resource>, c: multiset<Resource>, d: multiset<Resource>)
    ensures a + b + c + d == a + (d + b + c)
  {
  }

  ghost function At(s: seq<Node>, i: nat): Node? { if i < |s| then s[i] else null }
}
