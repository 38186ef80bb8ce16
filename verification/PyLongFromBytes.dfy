/** _PyLong_FromByteArray (signed, big-endian): insignificant bytes are skipped, the two's complement is undone byte by
    byte, and the bits are gathered into digits of s bits. */
module PyLongFromBytes {
  import opened Arithmetic
  import opened PyLongs
  import opened PyLongToBytes
  import opened PyLongAsBytes

  // ----- the bytes that matter

  /** The n least significant bytes, as a long with digits of 8 bits. */
  ghost function Significant(bytes: seq<nat>, n: nat): PyLong
    requires n <= |bytes|
  {
    PyLong(bytes != [] && bytes[0] >= 0x80, Reversed(bytes)[..n])
  }

  lemma {:induction false} MagFill(d: seq<nat>, x: nat)
    requires (x == 0 || x == 0xff) && forall i :: 0 <= i < |d| ==> d[i] == x
    ensures Mag(d, 8) == if x == 0 then 0 else Pow2(8 * |d|) - 1
  {
    Pow8();
    if d != [] {
      MagFill(d[1..], x);
      Pow2Add(8, 8 * |d[1..]|);
      assert 8 + 8 * |d[1..]| == 8 * |d|;
    }
  }

  /** Bytes equal to the sign do not matter: what is left stands for the same integer. */
  lemma SignificantSigned(bytes: seq<nat>, n: nat, fill: nat)
    requires n <= |bytes| && bytes != [] && Digits(bytes, 8) && fill == if bytes[0] >= 0x80 then 0xff else 0
    requires forall i :: 0 <= i < |bytes| - n ==> bytes[i] == fill
    ensures Signed(bytes) == Mag(Reversed(bytes)[..n], 8) - if bytes[0] >= 0x80 then Pow2(8 * n) else 0
  {
    var low := Reversed(bytes);
    MagSplit(low, 8, n);
    MagFill(low[n..], fill);
    Pow2Add(8 * (|bytes| - n), 8 * n);
    if bytes[0] >= 0x80 { Spread(Pow2(8 * (|bytes| - n)), Pow2(8 * n)); }
  }

  lemma ReversedDigits(bytes: seq<nat>, n: nat)
    requires n <= |bytes| && Digits(bytes, 8)
    ensures Digits(Reversed(bytes)[..n], 8)
  {
    var d := Reversed(bytes)[..n];
    forall i | 0 <= i < |d| ensures d[i] < Pow2(8) { assert d[i] == bytes[|bytes| - 1 - i]; }
  }

  /** The first byte that matters is not zero, unless the number is. */
  lemma SignificantNormal(bytes: seq<nat>, n: nat)
    requires 0 < |bytes| && n <= |bytes| && Digits(bytes, 8)
    requires bytes[0] >= 0x80 ==> n > 0
    requires n > 0 ==> bytes[|bytes| - n] != 0
    ensures Normal(Significant(bytes, n), 8)
  {
    ReversedDigits(bytes, n);
    hide Digits;
    if n > 0 { assert Reversed(bytes)[..n][n - 1] == bytes[|bytes| - n]; }
  }

  /** How many bytes matter: all but the leading ones that repeat the sign, and one of those if it is negative. */
  method SignificantBytes(bytes: array<nat>) returns (n: nat)
    requires bytes.Length > 0 && Digits(bytes[..], 8)
    ensures n <= bytes.Length && Normal(Significant(bytes[..], n), 8)
    ensures Signed(bytes[..]) == Mag(Reversed(bytes[..])[..n], 8) - if bytes[0] >= 0x80 then Pow2(8 * n) else 0
    ensures forall k :: 0 <= k < bytes.Length - n ==> bytes[k] == if bytes[0] >= 0x80 then 0xff else 0
    ensures n > 0 && bytes[0] < 0x80 ==> bytes[bytes.Length - n] != 0
    ensures bytes[0] >= 0x80 ==> n > 0 && (n > 1 && bytes[bytes.Length - n] == 0xff ==> bytes[bytes.Length - n + 1] != 0xff)
  {
    var negative := bytes[0] >= 0x80;
    var insignificant := if negative then 0xff else 0;
    var i := 0;
    while i < bytes.Length && bytes[i] == insignificant
      invariant i <= bytes.Length && forall k :: 0 <= k < i ==> bytes[k] == insignificant
    {
      i := i + 1;
    }
    n := bytes.Length - i;
    if negative && n < bytes.Length {
      n := n + 1;
    }
    hide Digits;
    SignificantNormal(bytes[..], n);
    SignificantSigned(bytes[..], n, insignificant);
  }

  // ----- gathering digits

  /** Digits finished so far and the accumulator together. */
  function Gathered(d: seq<nat>, accum: nat, s: nat): nat { Mag(d, s) + accum * Pow2(s * |d|) }

  lemma GatherByte(d: seq<nat>, accum: nat, bits: nat, s: nat, t: nat, i: nat)
    requires s * |d| + bits == 8 * i && accum < Pow2(bits) && t < 256
    ensures Gathered(d, accum + t * Pow2(bits), s) == Gathered(d, accum, s) + t * Pow2(8 * i)
    ensures accum + t * Pow2(bits) < Pow2(bits + 8)
  {
    Pow8();
    Pow2Add(bits, s * |d|);
    Regroup(accum, t, Pow2(bits), Pow2(s * |d|));
    PushBound(accum, t, bits, 8);
  }

  lemma FinishDigit(d: seq<nat>, accum: nat, bits: nat, s: nat, x: nat, rest: nat)
    requires bits >= s && accum < Pow2(bits) && x == accum % Pow2(s) && rest == Quotient(accum, Pow2(s))
    requires Digits(d, s)
    ensures Gathered(d + [x], rest, s) == Gathered(d, accum, s) && rest < Pow2(bits - s) && Digits(d + [x], s)
  {
    DivMod(accum, Pow2(s));
    DigitsMore(d, x, s);
    GatherMoves(d, x, rest, s);
    Pow2Add(bits - s, s);
    hide Mag;
    hide Pow2;
    QuotientBound(accum, Pow2(s), Pow2(bits - s));
  }

  lemma DigitsMore(d: seq<nat>, x: nat, s: nat)
    requires Digits(d, s) && x < Pow2(s)
    ensures Digits(d + [x], s)
  {
    hide Pow2;
  }

  /** Moving a digit out of the accumulator changes nothing. */
  lemma GatherMoves(d: seq<nat>, x: nat, rest: nat, s: nat)
    ensures Gathered(d + [x], rest, s) == Gathered(d, x + rest * Pow2(s), s)
  {
    hide Mag;
    hide Pow2;
    MagAppend(d, x, s);
    NextPower(s, |d|);
    MovedUp(Mag(d, s), x, Pow2(s), Pow2(s * |d|), Pow2(s * |d + [x]|), rest);
  }

  lemma MovedUp(m: nat, x: nat, b: nat, p: nat, q: nat, rest: nat)
    requires q == b * p
    ensures m + x * p + rest * q == m + (x + rest * b) * p
  {
    Regroup(x, rest, b, p);
  }

  lemma NextPower(s: nat, n: nat)
    ensures Pow2(s * (n + 1)) == Pow2(s) * Pow2(s * n)
  {
    OneDigitMore(s, n);
    Pow2Add(s, s * n);
  }

  lemma OneDigitMore(s: nat, n: nat)
    ensures s * (n + 1) == s + s * n
  {
  }

  /** Room for all the bits, rounded up to whole digits. */
  lemma RoundedUp(x: nat, s: nat)
    requires s > 0
    ensures x <= (x + s - 1) / s * s
  {
    DivMod(x + s - 1, s);
  }

  lemma RoomFor(d: nat, n: nat, s: nat, x: nat)
    requires s > 0 && s * d < x <= n * s
    ensures d < n
  {
    if d >= n { Monotone(n, d, s); Swap(d, s); }
  }

  ghost predicate DigitsStored(digits: array<nat>, d: seq<nat>)
    reads digits
  {
    |d| <= digits.Length && digits[..|d|] == d
  }

  /** Drops leading zero digits. */
  method Normalize(negative: bool, digits: array<nat>, size: nat, s: nat) returns (v: PyLong)
    requires size <= digits.Length && Digits(digits[..size], s)
    ensures Normal(v, s) && Value(v, s) == if negative then 0 - Mag(digits[..size], s) else Mag(digits[..size], s)
  {
    var i: nat := size;
    while i > 0 && digits[i - 1] == 0
      invariant i <= size && Mag(digits[..i], s) == Mag(digits[..size], s)
    {
      assert digits[..i] == digits[..i - 1] + [0];
      MagAppend(digits[..i - 1], 0, s);
      i := i - 1;
    }
    assert forall k :: 0 <= k < i ==> digits[..i][k] == digits[..size][k];
    v := PyLong(negative && i > 0, digits[..i]);
  }

  /** The state of the loop over bytes: the first i bytes of v, in two's complement, are in d and the accumulator. */
  ghost predicate Gathering(v: PyLong, s: nat, i: nat, carry: nat, d: seq<nat>, accum: nat, bits: nat) {
    && Consumed(v, 8, i, carry, Gathered(d, accum, s)) && s * |d| + bits == 8 * i && accum < Pow2(bits) && Digits(d, s)
  }

  lemma GatherStart(v: PyLong, s: nat)
    ensures Gathering(v, s, 0, if v.negative then 1 else 0, [], 0, 0)
  {
    assert v.digits[..0] == [];
  }

  lemma GatherStep(v: PyLong, s: nat, i: nat, carry: nat, d: seq<nat>, accum: nat, bits: nat, t: nat, carry1: nat, accum1: nat)
    requires Gathering(v, s, i, carry, d, accum, bits) && Normal(v, 8) && i < |v.digits|
    requires RawDigit(v, 8, i, carry) >= 0 && t == RawDigit(v, 8, i, carry) % 256
    requires carry1 == NextCarry(v, 8, RawDigit(v, 8, i, carry)) && accum1 == accum + t * Pow2(bits)
    ensures Gathering(v, s, i + 1, carry1, d, accum1, bits + 8)
  {
    Pow8();
    ConsumeStep(v, 8, i, carry, Gathered(d, accum, s));
    GatherByte(d, accum, bits, s, t, i);
  }

  lemma GatherDigit(v: PyLong, s: nat, i: nat, carry: nat, d: seq<nat>, accum: nat, bits: nat, x: nat, rest: nat)
    requires Gathering(v, s, i, carry, d, accum, bits) && bits >= s
    requires x == accum % Pow2(s) && rest == Quotient(accum, Pow2(s))
    ensures Gathering(v, s, i, carry, d + [x], rest, bits - s)
  {
    FinishDigit(d, accum, bits, s, x, rest);
    hide Consumed;
    hide Gathered;
    hide Digits;
    hide Pow2;
    assert |d + [x]| == |d| + 1 && s * (|d| + 1) == s * |d| + s;
  }

  lemma GatherEnd(v: PyLong, s: nat, carry: nat, d: seq<nat>, accum: nat, bits: nat)
    requires Gathering(v, s, |v.digits|, carry, d, accum, bits) && Normal(v, 8) && bits < s
    ensures var all := if bits > 0 then d + [accum] else d;
            Digits(all, s) && Mag(all, s) == if v.negative then Pow2(8 * |v.digits|) - Mag(v.digits, 8) else Mag(v.digits, 8)
  {
    ConsumedAll(v, 8, carry, Gathered(d, accum, s));
    MagAppend(d, accum, s);
    Pow2Grows(bits, s);
  }

  lemma SignificantAt(bytes: seq<nat>, n: nat)
    requires n <= |bytes| && bytes != []
    ensures var v := Significant(bytes, n);
            && v.negative == (bytes[0] >= 0x80) && |v.digits| == n && v.digits == Reversed(bytes)[..n]
            && forall i :: 0 <= i < n ==> v.digits[i] == bytes[|bytes| - 1 - i]
  {
  }

  /** One byte, complemented and incremented for negative numbers. */
  method Uncomplement(x: nat, negative: bool, carry: nat, ghost v: PyLong, ghost i: nat, ghost c: nat)
    returns (t: nat, nextCarry: nat)
    requires Normal(v, 8) && Consumed(v, 8, i, carry, c) && i < |v.digits| && x == v.digits[i] && negative == v.negative
    ensures RawDigit(v, 8, i, carry) >= 0
    ensures t == RawDigit(v, 8, i, carry) % 256 && nextCarry == NextCarry(v, 8, RawDigit(v, 8, i, carry))
  {
    Pow8();
    assert x < 256;
    t, nextCarry := x, 0;
    if negative {
      t := 0xff - x + carry;
      nextCarry := t / 256;
      t := t % 256;
    }
  }

  method StoreDigit(digits: array<nat>, idigit: nat, x: nat, ghost d: seq<nat>)
    requires DigitsStored(digits, d) && idigit == |d| < digits.Length
    modifies digits
    ensures DigitsStored(digits, d + [x])
  {
    digits[idigit] := x;
    assert digits[..idigit + 1] == d + [x];
  }

  lemma GatheringConsumed(v: PyLong, s: nat, i: nat, carry: nat, d: seq<nat>, accum: nat, bits: nat)
    requires Gathering(v, s, i, carry, d, accum, bits)
    ensures Consumed(v, 8, i, carry, Gathered(d, accum, s))
  {
  }

  /** Bits not stored yet still have a digit to go to. */
  lemma GatherRoom(v: PyLong, s: nat, i: nat, carry: nat, d: seq<nat>, accum: nat, bits: nat, n: nat, length: nat)
    requires Gathering(v, s, i, carry, d, accum, bits) && bits > 0 && i <= n && n * 8 <= length * s && s > 0
    ensures |d| < length
  {
    RoomFor(|d|, length, s, 8 * i);
  }

  lemma NothingStored(digits: array<nat>)
    ensures DigitsStored(digits, [])
  {
  }

  lemma StoredDigits(digits: array<nat>, d: seq<nat>)
    requires DigitsStored(digits, d)
    ensures |d| <= digits.Length && digits[..|d|] == d
  {
  }

  /** The digits of the magnitude of the n bytes that matter. */
  method Gather(bytes: array<nat>, n: nat, digits: array<nat>, s: nat) returns (size: nat)
    requires bytes.Length > 0 && n <= bytes.Length && Digits(bytes[..], 8) && s >= 8 && n * 8 <= digits.Length * s
    requires Normal(Significant(bytes[..], n), 8) && bytes != digits
    modifies digits
    ensures bytes[..] == old(bytes[..]) && size <= digits.Length && Digits(digits[..size], s)
    ensures var low := Reversed(bytes[..])[..n];
            Mag(digits[..size], s) == if bytes[0] >= 0x80 then Pow2(8 * n) - Mag(low, 8) else Mag(low, 8)
  {
    hide *;
    var negative := bytes[0] >= 0x80;
    ghost var v := Significant(bytes[..], n);
    ghost var d: seq<nat> := [];
    var i: nat, accum: nat, bits: nat := 0, 0, 0;
    var carry: nat := if negative then 1 else 0;
    size := 0;
    SignificantAt(bytes[..], n);
    GatherStart(v, s);
    NothingStored(digits);
    while i < n
      invariant i <= n && bits < s && size == |d| && Gathering(v, s, i, carry, d, accum, bits) && DigitsStored(digits, d)
    {
      GatheringConsumed(v, s, i, carry, d, accum, bits);
      var thisbyte, nextCarry := Uncomplement(bytes[bytes.Length - 1 - i], negative, carry, v, i, Gathered(d, accum, s));
      GatherStep(v, s, i, carry, d, accum, bits, thisbyte, nextCarry, accum + thisbyte * Pow2(bits));
      accum, bits, carry := accum + thisbyte * Pow2(bits), bits + 8, nextCarry;
      if bits >= s {
        GatherRoom(v, s, i + 1, carry, d, accum, bits, n, digits.Length);
        GatherDigit(v, s, i + 1, carry, d, accum, bits, accum % Pow2(s), Quotient(accum, Pow2(s)));
        StoreDigit(digits, size, accum % Pow2(s), d);
        size, d := size + 1, d + [accum % Pow2(s)];
        accum, bits := Quotient(accum, Pow2(s)), bits - s;
      }
      i := i + 1;
    }
    GatherEnd(v, s, carry, d, accum, bits);
    if bits > 0 {
      GatherRoom(v, s, i, carry, d, accum, bits, n, digits.Length);
      StoreDigit(digits, size, accum, d);
      size, d := size + 1, d + [accum];
    }
    StoredDigits(digits, d);
  }

  method FromByteArray(bytes: array<nat>, s: nat) returns (v: PyLong)
    requires Digits(bytes[..], 8) && s >= 8
    ensures Normal(v, s) && Value(v, s) == Signed(bytes[..])
  {
    if bytes.Length == 0 { return PyLong(false, []); }
    var n := SignificantBytes(bytes);
    RoundedUp(n * 8, s);
    var digits := new nat[(n * 8 + s - 1) / s];
    var size := Gather(bytes, n, digits, s);
    v := Normalize(bytes[0] >= 0x80, digits, size, s);
  }
}
