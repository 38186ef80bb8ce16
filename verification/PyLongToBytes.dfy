/** _PyLong_NumBits and _PyLong_AsByteArray (signed, big-endian) as the program runs them: digits of s bits pass
    through an accumulator into bytes, with the two's complement computed on the way. */
module PyLongToBytes {
  import opened Arithmetic
  import opened PyLongs

  // ----- the two's complement of the digits

  /** After i digits, c is what they contribute: the magnitude, or its two's complement with a pending carry. */
  ghost predicate Consumed(v: PyLong, s: nat, i: nat, carry: nat, c: nat) {
    && i <= |v.digits| && c < Pow2(s * i)
    && if v.negative then c + carry * Pow2(s * i) == Pow2(s * i) - Mag(v.digits[..i], s)
       else c == Mag(v.digits[..i], s) && carry == 0
  }

  /** The digit as stored, before the carry is split off: complemented and incremented for negative numbers. */
  function RawDigit(v: PyLong, s: nat, i: nat, carry: nat): int
    requires i < |v.digits|
  {
    if v.negative then Pow2(s) - 1 - v.digits[i] + carry else v.digits[i]
  }

  lemma CarrySmall(v: PyLong, s: nat, i: nat, carry: nat, c: nat)
    requires Consumed(v, s, i, carry, c)
    ensures carry <= 1
  {
    if carry >= 2 { AtLeastOnce(carry - 1, Pow2(s * i)); Spread(carry, Pow2(s * i)); }
  }

  function NextCarry(v: PyLong, s: nat, t: nat): nat { if v.negative then Quotient(t, Pow2(s)) else 0 }

  lemma ConsumeStep(v: PyLong, s: nat, i: nat, carry: nat, c: nat)
    requires Normal(v, s) && Consumed(v, s, i, carry, c) && i < |v.digits|
    ensures var t := RawDigit(v, s, i, carry);
            t >= 0 && Consumed(v, s, i + 1, NextCarry(v, s, t), c + t % Pow2(s) * Pow2(s * i))
  {
    var (b, p, d, m) := (Pow2(s), Pow2(s * i), v.digits[i], Mag(v.digits[..i], s));
    var t := RawDigit(v, s, i, carry);
    PrefixStep(v.digits, s, i);
    Pow2Add(s, s * i);
    assert s * (i + 1) == s + s * i;
    CarrySmall(v, s, i, carry, c);
    assert d < b;
    StepBound(c, p, t, b);
    if v.negative { ComplementStep(c, carry, p, b, d, m); } else { SmallMod(d, b); }
    hide Mag;
    hide Pow2;
  }

  lemma StepBound(c: nat, p: nat, t: nat, b: nat)
    requires c < p && b >= 1
    ensures c + t % b * p < b * p
  {
    BelowProduct(c, p, t % b, b);
    Swap(t % b, p);
    Swap(b, p);
  }

  lemma ComplementStep(c: nat, carry: nat, p: nat, b: nat, d: nat, m: nat)
    requires b >= 1 && d < b && c + carry * p == p - m
    ensures var t := b - 1 - d + carry;
            c + t % b * p + t / b * (b * p) == b * p - (m + d * p)
  {
    var t := b - 1 - d + carry;
    DivMod(t, b);
    Regroup(t % b, t / b, b, p);
    Expand(b, d, carry, p);
  }

  /** In the end the carry is used up and c is the value, less a power of two if it is negative. */
  lemma ConsumedAll(v: PyLong, s: nat, carry: nat, c: nat)
    requires Normal(v, s) && Consumed(v, s, |v.digits|, carry, c)
    ensures carry == 0
    ensures Value(v, s) == if v.negative then c - Pow2(s * |v.digits|) else c
  {
    var d := v.digits;
    assert d[..|d|] == d;
    NonZero(d, s);
    if v.negative && carry > 0 { AtLeastOnce(carry, Pow2(s * |d|)); }
  }

  // ----- the accumulator

  /** Of the w bits in the accumulator the lower `bits` matter; those above are copies of the sign. */
  ghost predicate SignAbove(negative: bool, accum: nat, bits: nat, w: nat) {
    if negative then accum < Pow2(w) && accum + Pow2(bits) >= Pow2(w) else accum < Pow2(bits)
  }

  /** Bytes stored so far and the accumulator together. */
  function Together(out: seq<nat>, accum: nat): nat { Mag(out, 8) + accum * Pow2(8 * |out|) }

  ghost predicate Stored(bytes: array<nat>, out: seq<nat>)
    reads bytes
  {
    && |out| <= bytes.Length && Digits(out, 8)
    && forall k :: 0 <= k < |out| ==> bytes[bytes.Length - 1 - k] == out[k]
  }

  lemma ShiftOut(out: seq<nat>, accum: nat)
    ensures Together(out + [accum % 256], accum / 256) == Together(out, accum)
  {
    Pow8();
    MagAppend(out, accum % 256, 8);
    Pow2Add(8, 8 * |out|);
    assert 8 * |out + [accum % 256]| == 8 + 8 * |out|;
    hide Mag;
    hide Pow2;
    Regroup(accum % 256, accum / 256, 256, Pow2(8 * |out|));
  }

  lemma ShiftKeepsSign(negative: bool, accum: nat, bits: nat, w: nat)
    requires 8 <= bits <= w && SignAbove(negative, accum, bits, w)
    ensures SignAbove(negative, accum / 256, bits - 8, w - 8)
  {
    Pow8();
    Pow2Add(8, bits - 8);
    Pow2Add(8, w - 8);
  }

  /** Stores whole bytes while the accumulator has them; not ok if the array is full before that. */
  method StoreBytes(bytes: array<nat>, accum0: nat, bits0: nat, j0: nat, ghost out0: seq<nat>, ghost negative: bool, ghost w0: nat)
    returns (ok: bool, accum: nat, bits: nat, j: nat, ghost out: seq<nat>, ghost w: nat)
    requires Stored(bytes, out0) && j0 == |out0| && bits0 <= w0 && SignAbove(negative, accum0, bits0, w0)
    modifies bytes
    ensures Stored(bytes, out) && j == |out| && bits <= w && SignAbove(negative, accum, bits, w)
    ensures Together(out, accum) == Together(out0, accum0)
    ensures 8 * j + bits == 8 * j0 + bits0 && 8 * j + w == 8 * j0 + w0
    ensures if ok then bits < 8 else j == bytes.Length && bits >= 8
  {
    accum, bits, j, out, w := accum0, bits0, j0, out0, w0;
    while bits >= 8
      invariant Stored(bytes, out) && j == |out| && bits <= w && SignAbove(negative, accum, bits, w)
      invariant Together(out, accum) == Together(out0, accum0)
      invariant 8 * j + bits == 8 * j0 + bits0 && 8 * j + w == 8 * j0 + w0
    {
      if j >= bytes.Length { return false, accum, bits, j, out, w; }
      ShiftOut(out, accum);
      ShiftKeepsSign(negative, accum, bits, w);
      StoreByte(bytes, accum % 256, j, out);
      j, out := j + 1, out + [accum % 256];
      bits, accum, w := bits - 8, accum / 256, w - 8;
    }
    ok := true;
  }

  method StoreByte(bytes: array<nat>, x: nat, j: nat, ghost out: seq<nat>)
    requires Stored(bytes, out) && j == |out| < bytes.Length && x < 256
    modifies bytes
    ensures Stored(bytes, out + [x])
  {
    Pow8();
    bytes[bytes.Length - 1 - j] := x;
  }

  // ----- how many bits there are

  /** x shifted right by k bits is y. */
  ghost predicate ShiftedBy(x: nat, y: nat, k: nat) { y * Pow2(k) <= x < (y + 1) * Pow2(k) }

  /** The bits needed for x, counted by shifting. */
  method BitLength(x: nat) returns (k: nat)
    ensures x < Pow2(k) && (k > 0 ==> Pow2(k - 1) <= x)
  {
    hide Pow2;
    hide ShiftedBy;
    k := 0;
    var y := x;
    NotShifted(x);
    while y != 0
      invariant ShiftedBy(x, y, k)
      invariant k > 0 ==> Pow2(k - 1) <= x
    {
      HalfStep(x, y, k);
      y := y / 2;
      k := k + 1;
    }
    ShiftedOut(x, k);
  }

  lemma NotShifted(x: nat)
    ensures ShiftedBy(x, x, 0)
  {
  }

  lemma ShiftedOut(x: nat, k: nat)
    requires ShiftedBy(x, 0, k)
    ensures x < Pow2(k)
  {
  }

  lemma HalfStep(x: nat, y: nat, k: nat)
    requires y > 0 && ShiftedBy(x, y, k)
    ensures ShiftedBy(x, y / 2, k + 1) && Pow2(k) <= x
  {
    AtLeastOnce(y, Pow2(k));
    var (h, p) := (y / 2, Pow2(k));
    assert Pow2(k + 1) == 2 * p;
    hide Pow2;
    if y == 2 * h { Doubled(h, p); } else { assert y == 2 * h + 1; Doubled(h, p); }
  }

  /** |value| has exactly that many bits. */
  method NumBits(v: PyLong, s: nat) returns (bits: nat)
    requires Normal(v, s)
    ensures Mag(v.digits, s) < Pow2(bits) && (bits > 0 ==> Pow2(bits - 1) <= Mag(v.digits, s))
  {
    bits := 0;
    if v.digits != [] {
      var top := |v.digits| - 1;
      var k := BitLength(v.digits[top]);
      bits := top * s + k;
      TopBits(v.digits, s, k);
    }
  }

  lemma TopBits(d: seq<nat>, s: nat, k: nat)
    requires Digits(d, s) && d != [] && d[|d| - 1] != 0
    requires d[|d| - 1] < Pow2(k) && (k > 0 ==> Pow2(k - 1) <= d[|d| - 1])
    ensures k > 0 && Mag(d, s) < Pow2((|d| - 1) * s + k) && Pow2((|d| - 1) * s + k - 1) <= Mag(d, s)
  {
    var top := |d| - 1;
    assert d[..top + 1] == d;
    PrefixStep(d, s, top);
    MagBound(d[..top], s);
    assert k > 0 by { assert Pow2(0) == 1; }
    Pow2Add(k, s * top);
    Pow2Add(k - 1, s * top);
    assert top * s == s * top;
    hide Mag;
    hide Pow2;
    BelowProduct(Mag(d[..top], s), Pow2(s * top), d[top], Pow2(k));
    Swap(d[top], Pow2(s * top));
    Swap(Pow2(k), Pow2(s * top));
    Monotone(Pow2(k - 1), d[top], Pow2(s * top));
  }
}
