/** The bitmap of a native type's method slots that is handed to Java with the type: built by loops over the method
    tables, one bit a slot, tested on the Java side with constant masks. */
module SlotBitmap {
  import opened Arithmetic
  import opened PyLongs

  const NUMBER_SLOTS := 39
  const SEQUENCE_SLOTS := 10
  const MAPPING_SLOTS := 3
  const BUFFER_SLOTS := 6

  /** A method table, if the type has one: which of its slots are not NULL. */
  datatype Table = NoTable | Slots(present: seq<bool>)

  /** A type object, as far as its slots go; richCompare takes the type's feature flag into account. */
  datatype TypeObject = TypeObject(number: Table, sequence: Table, mapping: Table, buffer: Table,
                                   compare: bool, haveRichCompare: bool, richCompare: bool, iter: bool)

  predicate TableFits(t: Table, size: nat) { t.Slots? ==> |t.present| == size }

  predicate WellFormed(t: TypeObject) {
    && TableFits(t.number, NUMBER_SLOTS) && TableFits(t.sequence, SEQUENCE_SLOTS)
    && TableFits(t.mapping, MAPPING_SLOTS) && TableFits(t.buffer, BUFFER_SLOTS)
  }

  // ----- what the bitmap is to say

  /** The slots of one table; those of a missing table are not present. */
  function TableSlots(t: Table, size: nat): (r: seq<bool>)
    requires TableFits(t, size)
    ensures |r| == size
  {
    if t.Slots? then t.present else seq(size, _ => false)
  }

  /** All slots of the type, in the order of their bits. */
  function AllSlots(t: TypeObject): (r: seq<bool>)
    requires WellFormed(t)
    ensures |r| == 61
  {
    TableSlots(t.number, NUMBER_SLOTS) + TableSlots(t.sequence, SEQUENCE_SLOTS)
    + TableSlots(t.mapping, MAPPING_SLOTS) + TableSlots(t.buffer, BUFFER_SLOTS)
    + [t.compare, t.haveRichCompare && t.richCompare, t.iter]
  }

  function Bit(b: bool): nat { if b then 1 else 0 }

  function Bits(s: seq<bool>): (d: seq<nat>)
    ensures |d| == |s| && forall i :: 0 <= i < |s| ==> d[i] == Bit(s[i])
  {
    seq(|s|, i requires 0 <= i < |s| => Bit(s[i]))
  }

  function Bitmap(s: seq<bool>): nat { Mag(Bits(s), 1) }

  /** Java's test (flags & mask) != 0 for a mask of one bit. */
  predicate HasFlag(flags: nat, mask: nat)
    requires mask > 0
  {
    flags / mask % 2 == 1
  }

  lemma BitmapAppend(s: seq<bool>, b: bool)
    ensures Bitmap(s + [b]) == Bitmap(s) + if b then Pow2(|s|) else 0
  {
    hide Mag;
    hide Pow2;
    BitsAppend(s, b);
    hide Bits;
    MagAppend(Bits(s), Bit(b), 1);
  }

  lemma BitsAppend(s: seq<bool>, b: bool)
    ensures Bits(s + [b]) == Bits(s) + [Bit(b)] && 1 * |Bits(s)| == |s|
  {
  }

  /** The slots below i are less than bit i. */
  lemma LowBits(s: seq<bool>, i: nat)
    requires i <= |s|
    ensures Mag(Bits(s)[..i], 1) < Pow2(i)
  {
    assert Pow2(1) == 2;
    assert Digits(Bits(s)[..i], 1);
    hide Mag;
    hide Pow2;
    MagBound(Bits(s)[..i], 1);
  }

  lemma HighBits(s: seq<bool>, i: nat)
    requires i < |s|
    ensures Mag(Bits(s)[i..], 1) % 2 == Bit(s[i])
  {
    assert Pow2(1) == 2;
    assert Mag(Bits(s)[i..], 1) == Bits(s)[i] + 2 * Mag(Bits(s)[i..][1..], 1);
  }

  /** Bit i is set exactly if slot i is present: additions never carry and nothing is lost. */
  lemma BitIffPresent(s: seq<bool>, i: nat)
    requires i < |s|
    ensures HasFlag(Bitmap(s), Pow2(i)) <==> s[i]
  {
    var d := Bits(s);
    MagSplit(d, 1, i);
    LowBits(s, i);
    HighBits(s, i);
    hide Mag;
    hide Pow2;
    QuotientIs(Mag(d[..i], 1), Mag(d[i..], 1), Pow2(i));
  }

  /** The bitmap fits in a jlong without touching its sign, and determines the slots. */
  lemma BitmapLossless(t: TypeObject, u: TypeObject)
    requires WellFormed(t) && WellFormed(u)
    ensures Bitmap(AllSlots(t)) < Pow2(61)
    ensures Bitmap(AllSlots(t)) == Bitmap(AllSlots(u)) <==> AllSlots(t) == AllSlots(u)
  {
    MagBound(Bits(AllSlots(t)), 1);
    if Bitmap(AllSlots(t)) == Bitmap(AllSlots(u)) {
      forall i | 0 <= i < 61 ensures AllSlots(t)[i] == AllSlots(u)[i] {
        BitIffPresent(AllSlots(t), i);
        BitIffPresent(AllSlots(u), i);
      }
    }
  }

  // ----- building it

  /** One table's loop: a bit for each slot from position pos on; a missing table only advances the position. */
  method AddTable(t: Table, size: nat, flags0: nat, pos0: nat, ghost done: seq<bool>) returns (flags: nat, pos: nat)
    requires TableFits(t, size) && pos0 == |done| && flags0 == Bitmap(done)
    ensures pos == pos0 + size && flags == Bitmap(done + TableSlots(t, size))
  {
    flags, pos := flags0, pos0;
    if t.Slots? {
      var posOff := 0;
      assert done + t.present[..0] == done;
      while posOff < size
        invariant posOff <= size && pos == pos0 + posOff && flags == Bitmap(done + t.present[..posOff])
      {
        assert done + t.present[..posOff + 1] == (done + t.present[..posOff]) + [t.present[posOff]];
        BitmapAppend(done + t.present[..posOff], t.present[posOff]);
        flags, pos := AddSlot(t.present[posOff], flags, pos);
        posOff := posOff + 1;
      }
      assert t.present[..size] == t.present;
    } else {
      pos := pos + size;
      NothingAdded(done, size);
    }
  }

  method AddSlot(present: bool, flags0: nat, pos0: nat) returns (flags: nat, pos: nat)
    ensures flags == flags0 + (if present then Pow2(pos0) else 0) && pos == pos0 + 1
  {
    flags, pos := flags0, pos0;
    if present { flags := flags + Pow2(pos); }
    pos := pos + 1;
  }

  lemma {:induction false} NothingAdded(s: seq<bool>, n: nat)
    ensures Bitmap(s + seq(n, _ => false)) == Bitmap(s)
  {
    if n == 0 {
      assert s + seq(0, _ => false) == s;
    } else {
      NothingAdded(s, n - 1);
      assert s + seq(n, _ => false) == (s + seq(n - 1, _ => false)) + [false];
      BitmapAppend(s + seq(n - 1, _ => false), false);
    }
  }

  method MethodFlags(t: TypeObject) returns (flags: nat)
    requires WellFormed(t)
    ensures flags == Bitmap(AllSlots(t))
  {
    hide Bitmap;
    hide Pow2;
    hide TableSlots;
    hide AllSlots;
    flags := 0;
    var pos := 0;
    Nothing();
    ghost var done: seq<bool> := [];
    if t.number.Slots? || t.sequence.Slots? || t.mapping.Slots? || t.buffer.Slots? {
      flags, pos := AddTable(t.number, NUMBER_SLOTS, flags, pos, []);
      done := TableSlots(t.number, NUMBER_SLOTS);
      assert [] + done == done;
      flags, pos := AddTable(t.sequence, SEQUENCE_SLOTS, flags, pos, done);
      done := done + TableSlots(t.sequence, SEQUENCE_SLOTS);
      flags, pos := AddTable(t.mapping, MAPPING_SLOTS, flags, pos, done);
      done := done + TableSlots(t.mapping, MAPPING_SLOTS);
      flags, pos := AddTable(t.buffer, BUFFER_SLOTS, flags, pos, done);
      done := done + TableSlots(t.buffer, BUFFER_SLOTS);
    } else {
      pos := NUMBER_SLOTS + SEQUENCE_SLOTS + MAPPING_SLOTS + BUFFER_SLOTS;
      done := seq(58, _ => false);
      NoTables(t);
    }
    var rich := t.haveRichCompare && t.richCompare;
    BitmapAppend(done, t.compare);
    BitmapAppend(done + [t.compare], rich);
    BitmapAppend(done + [t.compare] + [rich], t.iter);
    flags, pos := AddSlot(t.compare, flags, pos);
    flags, pos := AddSlot(rich, flags, pos);
    flags, pos := AddSlot(t.iter, flags, pos);
    AllInOrder(t, done);
  }

  lemma NoTables(t: TypeObject)
    requires WellFormed(t) && t.number.NoTable? && t.sequence.NoTable? && t.mapping.NoTable? && t.buffer.NoTable?
    ensures seq(58, _ => false) == TableSlots(t.number, NUMBER_SLOTS) + TableSlots(t.sequence, SEQUENCE_SLOTS)
                                   + TableSlots(t.mapping, MAPPING_SLOTS) + TableSlots(t.buffer, BUFFER_SLOTS)
    ensures Bitmap(seq(58, _ => false)) == 0
  {
    NothingAdded([], 58);
    assert [] + seq(58, _ => false) == seq(58, _ => false);
  }

  lemma AllInOrder(t: TypeObject, done: seq<bool>)
    requires WellFormed(t)
    requires done == TableSlots(t.number, NUMBER_SLOTS) + TableSlots(t.sequence, SEQUENCE_SLOTS)
                     + TableSlots(t.mapping, MAPPING_SLOTS) + TableSlots(t.buffer, BUFFER_SLOTS)
    ensures done + [t.compare] + [t.haveRichCompare && t.richCompare] + [t.iter] == AllSlots(t)
  {
  }

  lemma Nothing()
    ensures Bitmap([]) == 0
  {
  }

  // ----- reading it

  function Present(t: Table, size: nat, i: nat): bool
    requires TableFits(t, size) && i < size
  {
    t.Slots? && t.present[i]
  }

  /** The slot of bit i. */
  function SlotOf(t: TypeObject, i: nat): bool
    requires WellFormed(t) && i < 61
  {
    if i < 39 then Present(t.number, NUMBER_SLOTS, i)
    else if i < 49 then Present(t.sequence, SEQUENCE_SLOTS, i - 39)
    else if i < 52 then Present(t.mapping, MAPPING_SLOTS, i - 49)
    else if i < 58 then Present(t.buffer, BUFFER_SLOTS, i - 52)
    else if i == 58 then t.compare
    else if i == 59 then t.haveRichCompare && t.richCompare
    else t.iter
  }

  /** The masks of PyCPeerType.java, from NB_ADD to OB_ITER. */
  function Mask(i: nat): nat
    requires i < 61
  {
    match i
    case 0 => 0x1 case 1 => 0x2 case 2 => 0x4 case 3 => 0x8 case 4 => 0x10 case 5 => 0x20 case 6 => 0x40
    case 7 => 0x80 case 8 => 0x100 case 9 => 0x200 case 10 => 0x400 case 11 => 0x800 case 12 => 0x1000
    case 13 => 0x2000 case 14 => 0x4000 case 15 => 0x8000 case 16 => 0x10000 case 17 => 0x20000 case 18 => 0x40000
    case 19 => 0x80000 case 20 => 0x100000 case 21 => 0x200000 case 22 => 0x400000 case 23 => 0x800000
    case 24 => 0x1000000 case 25 => 0x2000000 case 26 => 0x4000000 case 27 => 0x8000000 case 28 => 0x10000000
    case 29 => 0x20000000 case 30 => 0x40000000 case 31 => 0x80000000 case 32 => 0x100000000 case 33 => 0x200000000
    case 34 => 0x400000000 case 35 => 0x800000000 case 36 => 0x1000000000 case 37 => 0x2000000000
    case 38 => 0x4000000000 case 39 => 0x8000000000 case 40 => 0x10000000000 case 41 => 0x20000000000
    case 42 => 0x40000000000 case 43 => 0x80000000000 case 44 => 0x100000000000 case 45 => 0x200000000000
    case 46 => 0x400000000000 case 47 => 0x800000000000 case 48 => 0x1000000000000 case 49 => 0x2000000000000
    case 50 => 0x4000000000000 case 51 => 0x8000000000000 case 52 => 0x10000000000000 case 53 => 0x20000000000000
    case 54 => 0x40000000000000 case 55 => 0x80000000000000 case 56 => 0x100000000000000
    case 57 => 0x200000000000000 case 58 => 0x400000000000000 case 59 => 0x800000000000000
    case 60 => 0x1000000000000000
  }

  /** Each is a single bit, in the order of the slots. */
  lemma {:induction false} MaskIsBit(i: nat)
    requires i < 61
    ensures Mask(i) == Pow2(i)
  {
    if i > 0 {
      MaskIsBit(i - 1);
      Doubling(i);
    }
  }

  lemma Doubling(i: nat)
    requires 0 < i < 61
    ensures Mask(i) == 2 * Mask(i - 1)
  {
  }

  /** Every mask selects the slot it is named after, whichever tables are missing. */
  lemma JavaReadsSlots(t: TypeObject, i: nat)
    requires WellFormed(t) && i < 61
    ensures Mask(i) > 0 && (HasFlag(Bitmap(AllSlots(t)), Mask(i)) <==> SlotOf(t, i))
  {
    MaskIsBit(i);
    BitIffPresent(AllSlots(t), i);
    assert AllSlots(t)[i] == SlotOf(t, i);
  }
}
