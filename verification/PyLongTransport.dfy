/** Longs carried between native code and Java as two's-complement byte strings: the two conversions of JySync.c,
    down to the digits, and the round trips. */
module PyLongTransport {
  import opened Arithmetic
  import opened PyLongs
  import opened PyLongToBytes
  import opened PyLongAsBytes
  import opened PyLongFromBytes

  // ----- digits through the accumulator

  /** The accumulator once digit i - 1 is in it and some bytes may have been stored. */
  ghost predicate Pushed(v: PyLong, s: nat, i: nat, c: nat, out: seq<nat>, accum: nat, bits: nat, w: nat) {
    && Together(out, accum) == c && 8 * |out| + w == s * i && bits <= w && (i < |v.digits| ==> w == bits)
    && SignAbove(v.negative && i == |v.digits|, accum, bits, w) && NeedsBits(Value(v, s), 8 * |out| + bits)
  }

  /** How far the last digit reaches, or any other. */
  ghost predicate Reaches(v: PyLong, s: nat, i: nat, t: nat, k: nat) {
    if i + 1 < |v.digits| then k == s
    else var sd := SignDigit(v.negative, t, s); 0 <= sd < Pow2(k) && (k > 0 ==> Pow2(k - 1) <= sd)
  }

  lemma PushDigit(v: PyLong, s: nat, i: nat, carry: nat, c: nat, out: seq<nat>, accum: nat, bits: nat, w: nat,
                  t: nat, k: nat, c1: nat, accum1: nat)
    requires Normal(v, s) && s > 0 && i < |v.digits| && Consumed(v, s, i, carry, c)
    requires Held(v, s, i, c, out, accum, bits, w)
    requires RawDigit(v, s, i, carry) >= 0 && t == RawDigit(v, s, i, carry) % Pow2(s) && Reaches(v, s, i, t, k)
    requires c1 == c + t * Pow2(s * i) && accum1 == accum + t * Pow2(bits)
    ensures Pushed(v, s, i + 1, c1, out, accum1, bits + k, w + s)
  {
    hide Mag;
    hide Value;
    hide NeedsBits;
    hide Together;
    hide Normal;
    hide Consumed;
    PushTogether(out, accum, t, bits, s * i);
    assert s * (i + 1) == s * i + s;
    if i + 1 < |v.digits| {
      PushBound(accum, t, bits, s);
      InnerBits(v, s, i);
    } else {
      LastBits(v, s, i, carry, c, k);
      KBound(SignDigit(v.negative, t, s), k, s);
      PushSign(v.negative, accum, t, bits, s, k);
    }
  }

  lemma PushedHeld(v: PyLong, s: nat, i: nat, c: nat, out: seq<nat>, accum: nat, bits: nat, w: nat)
    requires Pushed(v, s, i, c, out, accum, bits, w) && 0 < i <= |v.digits|
    ensures Held(v, s, i, c, out, accum, bits, w)
  {
  }

  lemma PushedSign(v: PyLong, s: nat, i: nat, c: nat, out: seq<nat>, accum: nat, bits: nat, w: nat)
    requires Pushed(v, s, i, c, out, accum, bits, w)
    ensures SignAbove(v.negative && i == |v.digits|, accum, bits, w) && bits <= w
  {
  }

  lemma PushedKept(v: PyLong, s: nat, i: nat, c: nat, out0: seq<nat>, accum0: nat, bits0: nat, w0: nat,
                   out: seq<nat>, accum: nat, bits: nat, w: nat)
    requires Pushed(v, s, i, c, out0, accum0, bits0, w0) && Together(out, accum) == Together(out0, accum0)
    requires 8 * |out| + bits == 8 * |out0| + bits0 && 8 * |out| + w == 8 * |out0| + w0
    requires SignAbove(v.negative && i == |v.digits|, accum, bits, w)
    ensures Pushed(v, s, i, c, out, accum, bits, w)
  {
  }

  lemma BelowBase(v: PyLong, s: nat, i: nat, carry: nat, c: nat)
    requires Normal(v, s) && Consumed(v, s, i, carry, c) && i < |v.digits|
    ensures !v.negative ==> RawDigit(v, s, i, carry) < Pow2(s)
    ensures 0 <= SignDigit(v.negative, RawDigit(v, s, i, carry) % Pow2(s), s)
  {
  }

  lemma LastReaches(v: PyLong, s: nat, i: nat, t: nat, k: nat)
    requires i < |v.digits| && 0 <= SignDigit(v.negative, t, s)
    requires if i == |v.digits| - 1
             then SignDigit(v.negative, t, s) < Pow2(k) && (k > 0 ==> Pow2(k - 1) <= SignDigit(v.negative, t, s))
             else k == s
    ensures Reaches(v, s, i, t, k)
  {
  }

  /** The array is full but the number is not: the bytes are its low ones and it does not fit. */
  lemma Overflowed(v: PyLong, s: nat, i: nat, carry: nat, c: nat, bytes: array<nat>, out: seq<nat>, accum: nat, bits: nat, w: nat)
    requires Consumed(v, s, i, carry, c) && Pushed(v, s, i, c, out, accum, bits, w)
    requires Stored(bytes, out) && |out| == bytes.Length && bits >= 8
    ensures Digits(bytes[..], 8) && Unsigned(bytes[..]) == Value(v, s) % Pow2(8 * bytes.Length)
    ensures !Fits(Value(v, s), bytes.Length) && Value(v, s) != -1
  {
    hide Mag;
    var q := Remainder(v, s, i, carry, c);
    Pow2Add(w, 8 * |out|);
    Regroup(accum, q, Pow2(w), Pow2(8 * |out|));
    FullLow(Value(v, s), bytes, out, accum + q * Pow2(w));
    TooLong(Value(v, s), 8 * |out| + bits, bytes.Length);
    Pow2Grows(0, 8 * |out| + bits - 1);
  }

  /** After the last digit, what remains is the accumulator read as a signed number. */
  lemma AllHeld(v: PyLong, s: nat, carry: nat, c: nat, out: seq<nat>, accum: nat, bits: nat, w: nat)
    requires Normal(v, s) && Consumed(v, s, |v.digits|, carry, c) && Held(v, s, |v.digits|, c, out, accum, bits, w)
    ensures Remains(Value(v, s), out, accum - (if v.negative then Pow2(w) else 0)) && (Value(v, s) < 0 <==> v.negative)
    ensures SignAbove(v.negative, accum, bits, w) && NeedsBits(Value(v, s), 8 * |out| + bits) && bits <= w
  {
    ConsumedAll(v, s, carry, c);
    NonZero(v.digits, s);
    hide Mag;
    Pow2Add(w, 8 * |out|);
    SpreadSum(accum - Pow2(w), Pow2(w), Pow2(8 * |out|));
  }

  // ----- native to Java

  /** _PyLong_AsByteArray, signed and big-endian. The bytes are the least significant ones of the value in any case;
      success means that the value fits with its sign, but that storing -1 in no bytes succeeds as well. */
  method AsByteArray(v: PyLong, s: nat, bytes: array<nat>) returns (ok: bool)
    requires Normal(v, s) && s >= 8
    modifies bytes
    ensures Digits(bytes[..], 8) && Unsigned(bytes[..]) == Value(v, s) % Pow2(8 * bytes.Length)
    ensures ok <==> Fits(Value(v, s), bytes.Length) || (bytes.Length == 0 && Value(v, s) == -1)
    ensures ok && bytes.Length > 0 ==> Signed(bytes[..]) == Value(v, s)
  {
    hide *;
    var i: nat, j: nat, accum: nat, bits: nat := 0, 0, 0, 0;
    var carry: nat := if v.negative then 1 else 0;
    ghost var c: nat, w: nat, out: seq<nat> := 0, 0, [];
    AtStart(v, s, bytes);
    while i < |v.digits|
      invariant i <= |v.digits| && Consumed(v, s, i, carry, c) && Held(v, s, i, c, out, accum, bits, w)
      invariant Stored(bytes, out) && j == |out| && bits < 8
    {
      ConsumeStep(v, s, i, carry, c);
      BelowBase(v, s, i, carry, c);
      var t, nextCarry := NextDigit(v, s, i, carry);
      var k := s;
      if i == |v.digits| - 1 {
        k := BitLength(SignDigit(v.negative, t, s));
      }
      LastReaches(v, s, i, t, k);
      ghost var (c0, accum0, bits0) := (c, accum, bits);
      c, accum := c + t * Pow2(s * i), accum + t * Pow2(bits);
      PushDigit(v, s, i, carry, c0, out, accum0, bits0, w, t, k, c, accum);
      carry, bits, w := nextCarry, bits + k, w + s;
      PushedSign(v, s, i + 1, c, out, accum, bits, w);
      ghost var (out1, accum1, bits1, w1) := (out, accum, bits, w);
      var ok1;
      ok1, accum, bits, j, out, w := StoreBytes(bytes, accum, bits, j, out, v.negative && i + 1 == |v.digits|, w);
      PushedKept(v, s, i + 1, c, out1, accum1, bits1, w1, out, accum, bits, w);
      if !ok1 {
        Overflowed(v, s, i + 1, carry, c, bytes, out, accum, bits, w);
        return false;
      }
      PushedHeld(v, s, i + 1, c, out, accum, bits, w);
      i := i + 1;
    }
    AllHeld(v, s, carry, c, out, accum, bits, w);
    ok := Finish(bytes, v.negative, accum, bits, j, out, w, Value(v, s));
  }

  lemma AtStart(v: PyLong, s: nat, bytes: array<nat>)
    ensures Consumed(v, s, 0, if v.negative then 1 else 0, 0) && Held(v, s, 0, 0, [], 0, 0, 0) && Stored(bytes, [])
  {
    assert v.digits[..0] == [];
  }

  method NextDigit(v: PyLong, s: nat, i: nat, carry: nat) returns (t: nat, nextCarry: nat)
    requires i < |v.digits| && RawDigit(v, s, i, carry) >= 0 && (!v.negative ==> RawDigit(v, s, i, carry) < Pow2(s))
    ensures t == RawDigit(v, s, i, carry) % Pow2(s) && nextCarry == NextCarry(v, s, RawDigit(v, s, i, carry))
  {
    if v.negative {
      var base := Pow2(s);
      var raw := base - 1 - v.digits[i] + carry;
      assert raw == RawDigit(v, s, i, carry);
      hide Pow2;
      t, nextCarry := raw % base, Quotient(raw, base);
    } else {
      t, nextCarry := v.digits[i], 0;
      SmallMod(t, Pow2(s));
    }
  }

  // ----- the two conversions

  /** The size JySync computes is always enough for the sign as well. */
  lemma SizeSuffices(x: int, numBits: nat)
    requires 0 - Pow2(numBits) < x < Pow2(numBits)
    ensures Fits(x, 1 + numBits / 8 + if numBits % 8 != 0 then 1 else 0)
  {
    var n := 1 + numBits / 8 + if numBits % 8 != 0 then 1 else 0;
    Pow2Grows(numBits, 8 * n - 1);
  }

  /** The byte string handed to Java stands for the value; that AsByteArray may fail is rightly ignored. */
  method JyLongFromPyLong(v: PyLong, s: nat) returns (bytes: array<nat>)
    requires Normal(v, s) && s >= 8
    ensures fresh(bytes) && Digits(bytes[..], 8) && Signed(bytes[..]) == Value(v, s)
    ensures bytes.Length > 0 && Mag(v.digits, s) < Pow2(8 * (bytes.Length - 1))
    ensures bytes.Length > 1 ==> Pow2(8 * (bytes.Length - 2)) <= Mag(v.digits, s)
  {
    var numBits := NumBits(v, s);
    var n := 1 + numBits / 8;
    if numBits % 8 != 0 { n := n + 1; }
    bytes := new nat[n];
    SizeSuffices(Value(v, s), numBits);
    Pow2Grows(numBits, 8 * (n - 1));
    if n > 1 { Pow2Grows(8 * (n - 2), numBits - 1); }
    var ok := AsByteArray(v, s, bytes);
    assert ok;
  }

  method PyLongFromJyLong(bytes: array<nat>, s: nat) returns (v: PyLong)
    requires Digits(bytes[..], 8) && s >= 8
    ensures Normal(v, s) && Value(v, s) == Signed(bytes[..])
  {
    v := FromByteArray(bytes, s);
  }

  /** Native to Java and back, through any byte string that stands for the same integer (Java minimizes it): the very
      same long. */
  method ThereAndBack(v: PyLong, s: nat, back: array<nat>) returns (w: PyLong, bytes: array<nat>)
    requires Normal(v, s) && s >= 8 && Digits(back[..], 8) && Signed(back[..]) == Value(v, s)
    ensures Signed(bytes[..]) == Signed(back[..])
    ensures w == v
  {
    bytes := JyLongFromPyLong(v, s);
    w := PyLongFromJyLong(back, s);
    NormalUnique(v, w, s);
  }

  /** Two byte strings for one integer decode to one long, whatever sign bytes they start with. */
  lemma {:induction false} Extended(b: seq<nat>, k: nat)
    requires Digits(b, 8)
    ensures Signed(Extension(b, k)) == Signed(b) && Digits(Extension(b, k), 8) && |Extension(b, k)| == |b| + k
  {
    Pow8();
    if k > 0 {
      Extended(b, k - 1);
      SignExtended(Extension(b, k - 1));
    }
  }

  /** b with k more sign bytes in front. */
  function Extension(b: seq<nat>, k: nat): seq<nat> {
    if k == 0 then b
    else var e := Extension(b, k - 1); [if e != [] && e[0] >= 0x80 then 0xff else 0] + e
  }
}
