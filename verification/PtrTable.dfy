/** The pointer table as JyHash.c has it: global variables updated in place, proved against the functions of
    PtrHash, PtrResize and PtrRuns. */
module PtrTables {
  import opened PtrHash
  import opened PtrResize
  import opened PtrRuns

  lemma FirstDummySnoc(t: seq<Slot>, p: Ptr, k: nat, s: nat)
    requires |t| > 0 && k <= s
    ensures FirstDummy(t, p, k, s + 1) ==
              var d := FirstDummy(t, p, k, s);
              if d >= 0 then d else if t[Probe(p, s, |t|)] == Dummy then Probe(p, s, |t|) else -1
    decreases s - k
  {
    if k < s { FirstDummySnoc(t, p, k + 1, s); }
  }

  lemma OneRound(was: seq<Slot>, n: nat, tb: Table, mode: Restart)
    requires 0 < n <= |was| && |tb.slots| >= INIT_SIZE
    ensures var s := Round(was, n, tb, mode);
            && s.n <= |was| && |s.tb.slots| >= INIT_SIZE
            && ResizeFrom(was, n, tb, mode).tb == ResizeFrom(was, s.n, s.tb, mode).tb
  {
    RoundProgress(was, n, tb, mode);
  }

  lemma NoRoundLeft(was: seq<Slot>, tb: Table, mode: Restart)
    requires |was| > 0 && |tb.slots| >= INIT_SIZE
    ensures ResizeFrom(was, 0, tb, mode).tb == tb
  {
  }

  class PtrTable {
    var table: array<Slot>
    var tableCapacity: nat
    var tableSize: int
    var delDummies: int
    var collisions: int

    function Model(): Table
      reads this, table
    {
      Table(table[..], tableSize, delDummies, collisions)
    }

    ghost predicate Shape()
      reads this
    {
      table.Length == tableCapacity >= INIT_SIZE
    }

    ghost predicate Valid()
      reads this, table
    {
      Shape() && Invariant(Model())
    }

    /** The set the table stands for. */
    ghost function Contents(): set<Ptr>
      reads this, table
    {
      LiveSet(table[..])
    }

    // JyHash_init
    constructor ()
      ensures Valid() && fresh(table) && Model() == Init() && Contents() == {}
    {
      table := new Slot[INIT_SIZE](_ => Free);
      tableCapacity, tableSize, delDummies, collisions := INIT_SIZE, 0, 0, 0;
      new;
      InitIsEmptySet();
      assert table[..] == Empty(INIT_SIZE);
    }

    // getPos
    method GetPos(p: Ptr) returns (r: int)
      requires Shape()
      ensures r == SearchPos(table[..], p)
    {
      ghost var t := table[..];
      var pos := Probe(p, 0, tableCapacity);
      if table[pos] == Live(p) { return pos; }
      if table[pos] == Free { return Compl(pos); }
      var rehash := 1;
      pos := Probe(p, rehash, tableCapacity);
      while table[pos] != Live(p)
        invariant 1 <= rehash <= MAX_REHASH && pos == Probe(p, rehash, tableCapacity)
        invariant Stop(t, p, 0) == Stop(t, p, rehash)
        decreases MAX_REHASH - rehash
      {
        if table[pos] == Free { return Compl(pos); }
        rehash := rehash + 1;
        if rehash > MAX_REHASH { return Compl(tableCapacity); }
        pos := Probe(p, rehash, tableCapacity);
      }
      return pos;
    }

    // getPosForInsert0
    method GetPosForInsert0(p: Ptr) returns (r: int)
      requires Shape()
      modifies this`collisions
      ensures r == SearchPos(table[..], p)
      ensures collisions == old(collisions) + Steps(table[..], p)
    {
      ghost var t := table[..];
      var pos := Probe(p, 0, tableCapacity);
      if table[pos] == Live(p) { return pos; }
      if table[pos] == Free { return Compl(pos); }
      var rehash := 1;
      collisions := collisions + 1;
      pos := Probe(p, rehash, tableCapacity);
      while table[pos] != Live(p)
        invariant 1 <= rehash <= MAX_REHASH && pos == Probe(p, rehash, tableCapacity)
        invariant Stop(t, p, 0) == Stop(t, p, rehash)
        invariant collisions == old(collisions) + rehash
        decreases MAX_REHASH - rehash
      {
        if table[pos] == Free { return Compl(pos); }
        rehash := rehash + 1;
        if rehash > MAX_REHASH { return Compl(tableCapacity); }
        collisions := collisions + 1;
        pos := Probe(p, rehash, tableCapacity);
      }
      return pos;
    }

    // getPosForInsert
    method GetPosForInsert(p: Ptr) returns (r: int)
      requires Shape()
      modifies this`collisions, this`delDummies
      ensures (Model(), r) == InsertSearch(old(Model()), p)
    {
      ghost var t := table[..];
      var freePos: int := -1;
      var pos := Probe(p, 0, tableCapacity);
      if table[pos] == Live(p) {
        return pos;
      } else if table[pos] == Free {
        return Compl(pos);
      } else if table[pos] == Dummy && freePos == -1 {
        freePos := pos;
      }
      var rehash := 1;
      collisions := collisions + 1;
      FirstDummySnoc(t, p, 0, 0);
      pos := Probe(p, rehash, tableCapacity);
      while table[pos] != Live(p)
        invariant 1 <= rehash <= MAX_REHASH && pos == Probe(p, rehash, tableCapacity)
        invariant Stop(t, p, 0) == Stop(t, p, rehash)
        invariant freePos == FirstDummy(t, p, 0, rehash)
        invariant collisions == old(collisions) + rehash && delDummies == old(delDummies)
        decreases MAX_REHASH - rehash
      {
        FirstDummySnoc(t, p, 0, rehash);
        if table[pos] == Free {
          if freePos != -1 { delDummies := delDummies - 1; return Compl(freePos); } else { return Compl(pos); }
        } else if table[pos] == Dummy && freePos == -1 {
          freePos := pos;
        }
        rehash := rehash + 1;
        if rehash > MAX_REHASH {
          if freePos != -1 { delDummies := delDummies - 1; return Compl(freePos); } else { return Compl(tableCapacity); }
        }
        collisions := collisions + 1;
        pos := Probe(p, rehash, tableCapacity);
      }
      return pos;
    }

    // insert0
    method InsertFresh(p: Ptr) returns (r: int)
      requires Shape()
      modifies this`collisions, this`tableSize, table
      ensures Shape() && delDummies == old(delDummies) && (Model(), r) == Insert0(old(Model()), p)
    {
      var pos := GetPosForInsert0(p);
      if pos < 0 {
        if pos == Compl(tableCapacity) { return ToInt(Compl(tableCapacity)); }
        table[Compl(pos)] := Live(p);
        tableSize := tableSize + 1;
        return 1;
      }
      return 0;
    }

    // the abort branch of resize_ptrTable
    method StartLarger()
      requires Shape() && delDummies == 0
      modifies this
      ensures Shape() && fresh(table)
      ensures Model() == Attempt(Grow(old(tableCapacity)), old(tableSize), old(collisions))
    {
      tableCapacity := tableCapacity * 11 / 10;
      if tableCapacity % 2 == 0 { tableCapacity := tableCapacity - 1; }
      table := new Slot[tableCapacity](_ => Free);
      assert table[..] == Empty(tableCapacity);
    }

    // the body of the loop of resize_ptrTable, with the decrement of i
    method TreatSlot(oldTable: array<Slot>, i: nat) returns (next: int)
      requires Shape() && delDummies == 0 && i < oldTable.Length && oldTable != table
      modifies this, table
      ensures Shape() && (table == old(table) || fresh(table)) && delDummies == 0
      ensures var s := Round(oldTable[..], i + 1, old(Model()), AsWritten); Model() == s.tb && next + 1 == s.n
    {
      hide Insert0; hide Grow;
      var j := i;
      if oldTable[j].Live? {
        var r := InsertFresh(oldTable[j].p);
        if AbortSeen(r, tableCapacity) {
          StartLarger();
          j := oldTable.Length - 1;
        }
      }
      return j - 1;
    }

    // resize_ptrTable
    method ResizeTable(newSize: nat)
      requires Shape() && newSize >= INIT_SIZE
      modifies this
      ensures Shape() && fresh(table)
      ensures Model() == Resize(old(table[..]), newSize, AsWritten).tb
    {
      var oldTable := table;
      tableCapacity := newSize;
      table := new Slot[tableCapacity](_ => Free);
      delDummies, tableSize, collisions := 0, 0, 0;
      assert table[..] == Empty(newSize);
      Reinsert(oldTable);
    }

    // its loop
    method Reinsert(oldTable: array<Slot>)
      requires Shape() && delDummies == 0 && oldTable != table && oldTable.Length > 0
      modifies this, table
      ensures Shape() && (table == old(table) || fresh(table))
      ensures Model() == ResizeFrom(oldTable[..], oldTable.Length, old(Model()), AsWritten).tb
    {
      hide ResizeFrom; hide Round;
      ghost var was := oldTable[..];
      ghost var m := Model();
      var i := oldTable.Length - 1;
      while i >= 0
        invariant -1 <= i < |was| && oldTable[..] == was && delDummies == 0
        invariant Shape() && (table == old(table) || fresh(table)) && oldTable != table
        invariant ResizeFrom(was, i + 1, Model(), AsWritten).tb == ResizeFrom(was, |was|, m, AsWritten).tb
        decreases if tableCapacity < INT_RANGE then INT_RANGE - tableCapacity else 0, i
      {
        OneRound(was, i + 1, Model(), AsWritten);
        RoundProgress(was, i + 1, Model(), AsWritten);
        i := TreatSlot(oldTable, i);
      }
      NoRoundLeft(was, Model(), AsWritten);
    }

    // JyHash_insert
    method Insert(p: Ptr) returns (r: int)
      requires Valid()
      modifies this, table
      ensures Valid() && (table == old(table) || fresh(table))
      ensures (Model(), r) == PtrRuns.Insert(old(Model()), p)
      ensures InsertMeans(old(Model()), p, Model(), r)
    {
      InsertEffect(Model(), p);
      hide Invariant; hide InsertMeans; hide PtrRuns.Insert;
      r := InsertSearched(p);
    }

    // its code
    method InsertSearched(p: Ptr) returns (r: int)
      requires Shape()
      modifies this, table
      ensures Shape() && (table == old(table) || fresh(table))
      ensures (Model(), r) == PtrRuns.Insert(old(Model()), p)
    {
      hide Resize; hide Insert0; hide InsertSearch;
      var pos := GetPosForInsert(p);
      if pos < 0 {
        if pos == Compl(tableCapacity) {
          ResizeTable(2 * tableCapacity - 1);
          r := InsertFresh(p);
          return;
        }
        table[Compl(pos)] := Live(p);
        tableSize := tableSize + 1;
        return 1;
      }
      return 0;
    }

    // clean_table
    method Clean()
      requires Valid()
      modifies this
      ensures Valid() && fresh(table)
      ensures Model() == Resize(old(table[..]), old(tableCapacity), AsWritten).tb
    {
      ApplyKeepsInvariant(Model(), OpClean);
      ResizeTable(tableCapacity);
    }

    // JyHash_contains
    method Contains(p: Ptr) returns (r: int)
      requires Valid()
      ensures r == if p in Contents() then 1 else 0
    {
      SearchPosMeaning(table[..], p);
      var pos := GetPos(p);
      return if pos >= 0 then 1 else 0;
    }

    // JyHash_delete
    method Delete(p: Ptr) returns (r: int)
      requires Valid()
      modifies this`tableSize, this`delDummies, table
      ensures Valid() && (Model(), r) == PtrRuns.Delete(old(Model()), p)
      ensures r == if p in old(Contents()) then 1 else 0
      ensures Contents() == old(Contents()) - {p}
    {
      DeleteEffect(Model(), p);
      SearchPosMeaning(table[..], p);
      var pos := GetPos(p);
      r := Discard(pos);
    }

    // the branch of JyHash_delete for a pointer that is in the table
    method Discard(pos: int) returns (r: int)
      requires Shape() && pos < tableCapacity
      modifies this`tableSize, this`delDummies, table
      ensures Shape()
      ensures (Model(), r) == if pos < 0 then (old(Model()), 0)
                              else (old(Model()).(slots := old(table[..])[pos := Dummy], dummies := old(delDummies) + 1, size := old(tableSize) - 1), 1)
    {
      if pos >= 0 {
        table[pos] := Dummy;
        delDummies := delDummies + 1;
        tableSize := tableSize - 1;
        return 1;
      }
      return 0;
    }
  }
}
