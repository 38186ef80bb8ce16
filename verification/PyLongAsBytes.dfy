/** _PyLong_AsByteArray as a whole: which bytes it stores, and when it reports success. */
module PyLongAsBytes {
  import opened Arithmetic
  import opened PyLongs
  import opened PyLongToBytes

  // ----- what is in the accumulator

  /** x has at least that many bits besides the sign. */
  ghost predicate NeedsBits(x: int, bits: nat) {
    bits == 0 || if x >= 0 then x >= Pow2(bits - 1) else -x > Pow2(bits - 1)
  }

  /** Before the last digit all bits count; after it, only those of the magnitude. */
  ghost predicate Held(v: PyLong, s: nat, i: nat, c: nat, out: seq<nat>, accum: nat, bits: nat, w: nat) {
    && Together(out, accum) == c && 8 * |out| + w == s * i && bits <= w
    && if i < |v.digits| || i == 0 then w == bits && accum < Pow2(bits)
       else SignAbove(v.negative, accum, bits, w) && NeedsBits(Value(v, s), 8 * |out| + bits)
  }

  lemma PushTogether(out: seq<nat>, accum: nat, t: nat, bits: nat, si: nat)
    requires 8 * |out| + bits == si
    ensures Together(out, accum + t * Pow2(bits)) == Together(out, accum) + t * Pow2(si)
  {
    Pow2Add(bits, 8 * |out|);
    Regroup(accum, t, Pow2(bits), Pow2(8 * |out|));
  }

  lemma PushBound(accum: nat, t: nat, bits: nat, s: nat)
    requires accum < Pow2(bits) && t < Pow2(s)
    ensures accum + t * Pow2(bits) < Pow2(bits + s)
  {
    Pow2Add(bits, s);
    BelowProduct(accum, Pow2(bits), t, Pow2(s));
    Swap(t, Pow2(bits));
  }

  function SignDigit(negative: bool, t: nat, s: nat): int { if negative then Pow2(s) - 1 - t else t }

  lemma PushSign(negative: bool, accum: nat, t: nat, bits: nat, s: nat, k: nat)
    requires accum < Pow2(bits) && t < Pow2(s) && SignDigit(negative, t, s) < Pow2(k) <= Pow2(s) && k <= s
    ensures SignAbove(negative, accum + t * Pow2(bits), bits + k, bits + s)
  {
    PushBound(accum, t, bits, s);
    Pow2Add(bits, k);
    Pow2Add(bits, s);
    if negative {
      TopOnes(accum, t, Pow2(s), Pow2(k), Pow2(bits));
    } else {
      PushBound(accum, t, bits, k);
    }
  }

  lemma TopOnes(accum: nat, t: nat, b: nat, q: nat, p: nat)
    requires b - 1 - t < q
    ensures accum + t * p + p * q >= p * b
  {
    Monotone(b, t + q, p);
    SpreadSum(t, q, p);
    Swap(b, p);
    Swap(q, p);
  }

  lemma KBound(x: nat, k: nat, s: nat)
    requires x < Pow2(s) && (k > 0 ==> Pow2(k - 1) <= x)
    ensures k <= s && Pow2(k) <= Pow2(s)
  {
    if k > s { Pow2Grows(s, k - 1); } else { Pow2Grows(k, s); }
  }

  // ----- how many bits the number needs

  /** All digits but the last are needed in full. */
  lemma InnerBits(v: PyLong, s: nat, i: nat)
    requires Normal(v, s) && s > 0 && i + 1 < |v.digits|
    ensures NeedsBits(Value(v, s), s * (i + 1))
  {
    MagTop(v.digits, s);
    assert s * (i + 1) <= s * (|v.digits| - 1) by { Monotone(i + 1, |v.digits| - 1, s); }
    Pow2Grows(s * (i + 1), s * (|v.digits| - 1));
    if s * (i + 1) > 0 { Pow2Grows(s * (i + 1) - 1, s * (i + 1)); }
  }

  /** Of the last digit, the bits of its magnitude. */
  lemma LastBits(v: PyLong, s: nat, i: nat, carry: nat, c: nat, k: nat)
    requires Normal(v, s) && Consumed(v, s, i, carry, c) && i + 1 == |v.digits|
    requires RawDigit(v, s, i, carry) >= 0
    requires var sd := SignDigit(v.negative, RawDigit(v, s, i, carry) % Pow2(s), s);
             sd < Pow2(k) && (k > 0 ==> Pow2(k - 1) <= sd)
    ensures NeedsBits(Value(v, s), s * i + k)
  {
    var (d, p, m) := (v.digits[i], Pow2(s * i), Mag(v.digits[..i], s));
    var sd := SignDigit(v.negative, RawDigit(v, s, i, carry) % Pow2(s), s);
    assert v.digits[..i + 1] == v.digits;
    PrefixStep(v.digits, s, i);
    CarrySmall(v, s, i, carry, c);
    LastDigit(v, s, i, carry);
    assert Mag(v.digits, s) >= sd * p + (if v.negative then 1 else 0) by {
      if carry == 1 { Spread(d, p); }
    }
    AtLeastOnce(d, p);
    if k > 0 {
      Pow2Add(k - 1, s * i);
      Monotone(Pow2(k - 1), sd, p);
    } else if s * i > 0 {
      Pow2Grows(s * i - 1, s * i);
    }
  }

  lemma LastDigit(v: PyLong, s: nat, i: nat, carry: nat)
    requires Normal(v, s) && i + 1 == |v.digits| && carry <= 1 && (!v.negative ==> carry == 0)
    ensures var t := RawDigit(v, s, i, carry);
            t >= 0 && SignDigit(v.negative, t % Pow2(s), s) == v.digits[i] - carry
  {
    SmallMod(RawDigit(v, s, i, carry), Pow2(s));
  }

  // ----- the bytes as a number

  /** What has not been consumed is a multiple of the place value reached. */
  lemma Remainder(v: PyLong, s: nat, i: nat, carry: nat, c: nat) returns (q: int)
    requires Consumed(v, s, i, carry, c)
    ensures Value(v, s) == c + q * Pow2(s * i)
  {
    var rest := Mag(v.digits[i..], s);
    MagSplit(v.digits, s, i);
    if v.negative {
      q := carry - 1 - rest;
      Expand3(carry, rest, Pow2(s * i));
    } else {
      q := rest;
    }
  }

  /** A full array holds the least significant bytes. */
  lemma FullIsLow(x: int, bytes: seq<nat>, out: seq<nat>, r: int)
    requires Digits(out, 8) && Reversed(bytes) == out && x == Mag(out, 8) + r * Pow2(8 * |out|)
    ensures Unsigned(bytes) == x % Pow2(8 * |bytes|)
  {
    MagBound(out, 8);
    ModUnique(x, Mag(out, 8), r, Pow2(8 * |out|));
  }

  lemma StoredAll(bytes: array<nat>, out: seq<nat>)
    requires Stored(bytes, out) && |out| == bytes.Length
    ensures Reversed(bytes[..]) == out && Digits(bytes[..], 8)
  {
    forall i | 0 <= i < bytes.Length ensures bytes[i] < Pow2(8) { assert bytes[i] == out[bytes.Length - 1 - i]; }
  }

  /** A number that needs at least all bits of n bytes does not fit with its sign. */
  lemma TooLong(x: int, bits: nat, n: nat)
    requires NeedsBits(x, bits) && bits >= 8 * n && bits > 0
    ensures !Fits(x, n)
  {
    if n > 0 { Pow2Grows(8 * n - 1, bits - 1); }
  }

  /** The sign bit of a full array decides whether the number fits. */
  lemma SignDecides(x: int, bytes: seq<nat>, out: seq<nat>)
    requires Digits(bytes, 8) && Reversed(bytes) == out && |bytes| > 0
    requires x == Mag(out, 8) - (if x < 0 then Pow2(8 * |out|) else 0)
    ensures if (bytes[0] >= 0x80) == (x < 0) then Signed(bytes) == x && Fits(x, |bytes|) else !Fits(x, |bytes|)
  {
    if (bytes[0] >= 0x80) == (x < 0) {
      SignedFits(bytes);
    } else {
      Pow8();
      var k := |bytes| - 1;
      assert out == out[..k] + [bytes[0]];
      MagAppend(out[..k], bytes[0], 8);
      MagBound(out[..k], 8);
      Pow2Add(8, 8 * k);
      Pow2Add(7, 8 * k);
      HalfSplit(bytes[0], Mag(out[..k], 8), Pow2(8 * k));
      if x >= 0 { Monotone(128, bytes[0], Pow2(8 * k)); } else { TopClear(bytes[0], Mag(out[..k], 8), Pow2(8 * k)); }
    }
  }

  lemma TopClear(x: int, m: int, p: int)
    requires 0 <= x < 128 && 0 <= m < p
    ensures m + x * p < 128 * p
  {
    Monotone(x + 1, 128, p);
    Spread(x + 1, p);
  }

  // ----- the function

  /** x is what the stored bytes and r, the signed number the accumulator stands for beyond them, make up. */
  ghost predicate Remains(x: int, out: seq<nat>, r: int) { x == Mag(out, 8) + r * Pow2(8 * |out|) }

  function Sign(negative: bool): int { if negative then -1 else 0 }

  lemma RemainsStep(x: int, out: seq<nat>, r: int, last: nat, next: int)
    requires Remains(x, out, r) && r == last + 256 * next
    ensures Remains(x, out + [last], next)
  {
    MagAppend(out, last, 8);
    Pow8();
    Pow2Add(8, 8 * |out|);
    Regroup(last, next, 256, Pow2(8 * |out|));
  }

  /** The bytes of a full array are the low bytes of x. */
  lemma FullLow(x: int, bytes: array<nat>, out: seq<nat>, r: int)
    requires Stored(bytes, out) && |out| == bytes.Length && Remains(x, out, r)
    ensures Digits(bytes[..], 8) && Unsigned(bytes[..]) == x % Pow2(8 * bytes.Length)
  {
    StoredAll(bytes, out);
    FullIsLow(x, bytes[..], out, r);
  }

  /** If only sign bits remain, the sign bit stored decides. */
  lemma FullDecides(x: int, bytes: array<nat>, out: seq<nat>, negative: bool)
    requires Stored(bytes, out) && |out| == bytes.Length && Remains(x, out, Sign(negative)) && (x < 0 <==> negative)
    ensures bytes.Length > 0 ==> if (bytes[0] >= 0x80) == negative then Signed(bytes[..]) == x && Fits(x, bytes.Length)
                                 else !Fits(x, bytes.Length)
    ensures bytes.Length == 0 ==> x == Sign(negative)
  {
    StoredAll(bytes, out);
    if bytes.Length > 0 { SignDecides(x, bytes[..], out); } else { assert out == [] && Pow2(0) == 1; }
  }

  /** A straggler of fewer than 8 bits is completed with sign bits. */
  lemma LastByte(negative: bool, accum: nat, bits: nat, w: nat, last: int)
    requires bits < 8 && bits <= w && SignAbove(negative, accum, bits, w)
    requires last == if negative then accum % Pow2(bits) + (256 - Pow2(bits)) else accum % 256
    ensures 0 <= last < 256 && accum - (if negative then Pow2(w) else 0) == last + 256 * Sign(negative)
    ensures (last >= 0x80) == negative
  {
    Pow8();
    Pow2Grows(bits, 7);
    if negative {
      Pow2Add(bits, w - bits);
      Swap(Pow2(bits), Pow2(w - bits));
      SpreadSum(Pow2(w - bits) - 1, 1, Pow2(bits));
      ModUnique(accum, accum - Pow2(w) + Pow2(bits), Pow2(w - bits) - 1, Pow2(bits));
    } else {
      SmallMod(accum, 256);
    }
  }

  lemma NothingLeft(negative: bool, accum: nat, w: nat)
    requires SignAbove(negative, accum, 0, w)
    ensures accum - (if negative then Pow2(w) else 0) == Sign(negative)
  {
  }

  /** Stores what is left in the accumulator and fills up with the sign. */
  method Finish(bytes: array<nat>, negative: bool, accum: nat, bits: nat, j: nat, ghost out: seq<nat>, ghost w: nat, ghost x: int)
    returns (ok: bool)
    requires Stored(bytes, out) && j == |out| && bits < 8 && bits <= w && SignAbove(negative, accum, bits, w)
    requires Remains(x, out, accum - (if negative then Pow2(w) else 0)) && (x < 0 <==> negative)
    requires NeedsBits(x, 8 * j + bits)
    modifies bytes
    ensures Digits(bytes[..], 8) && Unsigned(bytes[..]) == x % Pow2(8 * bytes.Length)
    ensures ok <==> Fits(x, bytes.Length) || (bytes.Length == 0 && x == -1)
    ensures ok && bytes.Length > 0 ==> Signed(bytes[..]) == x
  {
    hide *;
    ghost var r := accum - (if negative then Pow2(w) else 0);
    if bits > 0 {
      if j >= bytes.Length {
        StoredShort(bytes, out);
        FullLow(x, bytes, out, r);
        TooLong(x, 8 * j + bits, bytes.Length);
        MinusOneShort(x, bits, j);
        return false;
      }
      var last := if negative then accum % Pow2(bits) + (256 - Pow2(bits)) else accum % 256;
      LastByte(negative, accum, bits, w, last);
      StoreByte(bytes, last, j, out);
      RemainsStep(x, out, r, last, Sign(negative));
      ok := FillUp(bytes, negative, j + 1, out + [last], x);
    } else {
      NothingLeft(negative, accum, w);
      if j == bytes.Length && bytes.Length > 0 {
        FullLow(x, bytes, out, r);
        FullDecides(x, bytes, out, negative);
        return (bytes[0] >= 0x80) == negative;
      }
      StoredShort(bytes, out);
      ok := FillUp(bytes, negative, j, out, x);
    }
  }

  lemma StoredShort(bytes: array<nat>, out: seq<nat>)
    requires Stored(bytes, out)
    ensures |out| <= bytes.Length
  {
  }

  lemma MinusOneShort(x: int, bits: nat, j: nat)
    requires NeedsBits(x, 8 * j + bits) && bits > 0
    ensures j == 0 ==> x != -1
  {
  }

  /** The loop that fills the remaining bytes. */
  method FillUp(bytes: array<nat>, negative: bool, j0: nat, ghost out0: seq<nat>, ghost x: int) returns (ok: bool)
    requires Stored(bytes, out0) && j0 == |out0| && (negative <==> x < 0) && Remains(x, out0, Sign(negative))
    requires j0 < bytes.Length || bytes.Length == 0 || (out0[j0 - 1] >= 0x80) == negative
    modifies bytes
    ensures Digits(bytes[..], 8) && Unsigned(bytes[..]) == x % Pow2(8 * bytes.Length)
    ensures ok && (Fits(x, bytes.Length) || (bytes.Length == 0 && x == -1))
    ensures bytes.Length > 0 ==> Signed(bytes[..]) == x
  {
    hide Remains;
    hide Fits;
    hide Pow2;
    hide Mag;
    var j := j0;
    ghost var out := out0;
    var signbyte := if negative then 0xff else 0;
    while j < bytes.Length
      invariant Stored(bytes, out) && j == |out| && Remains(x, out, Sign(negative))
      invariant j < bytes.Length || bytes.Length == 0 || (out[j - 1] >= 0x80) == negative
    {
      StoreByte(bytes, signbyte, j, out);
      RemainsStep(x, out, Sign(negative), signbyte, Sign(negative));
      j, out := j + 1, out + [signbyte];
    }
    FullLow(x, bytes, out, Sign(negative));
    FullDecides(x, bytes, out, negative);
    ok := true;
    ZeroFits(x);
  }

  lemma ZeroFits(x: int)
    ensures Fits(x, 0) <==> x == 0
  {
  }
}
