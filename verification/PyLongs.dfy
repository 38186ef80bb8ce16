/** Python longs as sign and digits, byte strings, and the arithmetic that relates them. */
module PyLongs {
  import opened Arithmetic

  /** The number whose digits of s bits each are d, least significant first. Bytes are digits of 8 bits. */
  function Mag(d: seq<nat>, s: nat): nat {
    if d == [] then 0 else d[0] + Pow2(s) * Mag(d[1..], s)
  }

  predicate Digits(d: seq<nat>, s: nat) { forall i :: 0 <= i < |d| ==> d[i] < Pow2(s) }

  /** A PyLongObject: the sign of ob_size and ob_digit. */
  datatype PyLong = PyLong(negative: bool, digits: seq<nat>)

  /** Normalized: no leading zero digit, and zero is not negative. */
  predicate Normal(v: PyLong, s: nat) {
    Digits(v.digits, s) && if v.digits == [] then !v.negative else v.digits[|v.digits| - 1] != 0
  }

  function Value(v: PyLong, s: nat): int { if v.negative then 0 - Mag(v.digits, s) else Mag(v.digits, s) }

  // ----- byte strings, most significant byte first

  function Reversed(b: seq<nat>): (r: seq<nat>)
    ensures |r| == |b| && forall i :: 0 <= i < |b| ==> r[i] == b[|b| - 1 - i]
  {
    seq(|b|, i requires 0 <= i < |b| => b[|b| - 1 - i])
  }

  function Unsigned(b: seq<nat>): nat { Mag(Reversed(b), 8) }

  /** The integer b stands for in two's complement; what Java's BigInteger(byte[]) makes of it. */
  function Signed(b: seq<nat>): int {
    if b == [] then 0 else if b[0] >= 0x80 then Unsigned(b) - Pow2(8 * |b|) else Unsigned(b)
  }

  /** n bytes hold v with its sign. */
  predicate Fits(v: int, n: nat) {
    if n == 0 then v == 0 else 0 - Pow2(8 * n - 1) <= v < Pow2(8 * n - 1)
  }

  // ----- powers

  lemma {:induction false} Pow2Add(a: nat, b: nat)
    ensures Pow2(a + b) == Pow2(a) * Pow2(b)
  {
    if a == 0 {
    } else {
      Pow2Add(a - 1, b);
      assert Pow2(a + b) == 2 * Pow2(a - 1 + b);
    }
  }

  lemma {:induction false} Pow2Grows(a: nat, b: nat)
    requires a <= b
    ensures Pow2(a) <= Pow2(b) && (a < b ==> 2 * Pow2(a) <= Pow2(b))
  {
    if a < b { Pow2Grows(a, b - 1); }
  }

  lemma Pow8()
    ensures Pow2(8) == 256 && Pow2(7) == 128
  {
    assert Pow2(4) == 16;
  }

  // ----- digits

  lemma {:induction false} MagAppend(d: seq<nat>, x: nat, s: nat)
    ensures Mag(d + [x], s) == Mag(d, s) + x * Pow2(s * |d|)
  {
    if d == [] {
      assert [x][1..] == [];
    } else {
      assert (d + [x])[1..] == d[1..] + [x];
      MagAppend(d[1..], x, s);
      Pow2Add(s, s * |d[1..]|);
      assert s + s * |d[1..]| == s * |d|;
      var (p, q, m) := (Pow2(s), Pow2(s * |d[1..]|), Mag(d[1..], s));
      Distribute(p, m, x, q);
    }
  }

  lemma {:induction false} MagBound(d: seq<nat>, s: nat)
    requires Digits(d, s)
    ensures Mag(d, s) < Pow2(s * |d|)
  {
    if d != [] {
      MagBound(d[1..], s);
      Pow2Add(s, s * |d[1..]|);
      assert s + s * |d[1..]| == s * |d|;
      BelowProduct(d[0], Pow2(s), Mag(d[1..], s), Pow2(s * |d[1..]|));
    }
  }

  lemma PrefixStep(d: seq<nat>, s: nat, i: nat)
    requires i < |d|
    ensures Mag(d[..i + 1], s) == Mag(d[..i], s) + d[i] * Pow2(s * i)
  {
    assert d[..i + 1] == d[..i] + [d[i]];
    MagAppend(d[..i], d[i], s);
  }

  lemma {:induction false} MagSplit(d: seq<nat>, s: nat, i: nat)
    requires i <= |d|
    ensures Mag(d, s) == Mag(d[..i], s) + Mag(d[i..], s) * Pow2(s * i)
  {
    if i == 0 {
      assert d[0..] == d;
    } else {
      MagSplit(d, s, i - 1);
      PrefixStep(d, s, i - 1);
      assert d[i - 1..][1..] == d[i..];
      Pow2Add(s, s * (i - 1));
      assert s * i == s + s * (i - 1);
      SplitProduct(d[i - 1], Pow2(s), Mag(d[i..], s), Pow2(s * (i - 1)));
    }
  }

  /** The last digit splits off; a nonzero one makes the number at least its place value. */
  lemma MagTop(d: seq<nat>, s: nat)
    requires d != [] && d[|d| - 1] != 0
    ensures Mag(d, s) >= Pow2(s * (|d| - 1))
  {
    var k := |d| - 1;
    assert d == d[..k] + [d[k]];
    MagAppend(d[..k], d[k], s);
    hide Mag;
    hide Pow2;
    AtLeastOnce(d[k], Pow2(s * k));
  }

  // ----- one integer, one normalized long; one integer, all its byte strings

  /** A normalized long is determined by its value. */
  lemma NormalUnique(v: PyLong, w: PyLong, s: nat)
    requires Normal(v, s) && Normal(w, s) && Value(v, s) == Value(w, s) && s > 0
    ensures v == w
  {
    NonZero(v.digits, s);
    NonZero(w.digits, s);
    DigitsUnique(v.digits, w.digits, s);
  }

  lemma NonZero(d: seq<nat>, s: nat)
    requires d == [] || d[|d| - 1] != 0
    ensures d != [] ==> Mag(d, s) > 0
  {
    if d != [] { MagTop(d, s); }
  }

  lemma {:induction false} DigitsUnique(d: seq<nat>, e: seq<nat>, s: nat)
    requires Digits(d, s) && Digits(e, s) && Mag(d, s) == Mag(e, s)
    requires (d == [] || d[|d| - 1] != 0) && (e == [] || e[|e| - 1] != 0)
    ensures d == e
  {
    NonZero(d, s);
    NonZero(e, s);
    if d != [] && e != [] {
      SplitUnique(d[0], Mag(d[1..], s), e[0], Mag(e[1..], s), Pow2(s));
      DigitsUnique(d[1..], e[1..], s);
      assert d == [d[0]] + d[1..] && e == [e[0]] + e[1..];
    }
  }

  /** Sign extension by one byte does not change the integer. */
  lemma SignExtended(b: seq<nat>)
    requires Digits(b, 8)
    ensures Signed([if b != [] && b[0] >= 0x80 then 0xff else 0] + b) == Signed(b)
  {
    Pow8();
    var x: nat := if b != [] && b[0] >= 0x80 then 0xff else 0;
    assert Reversed([x] + b) == Reversed(b) + [x];
    MagAppend(Reversed(b), x, 8);
    Pow2Add(8, 8 * |b|);
    if b == [] { assert Reversed(b) == []; }
  }

  /** The bytes of a string that is as short as Java's toByteArray makes it, or longer, hold the integer. */
  lemma SignedFits(b: seq<nat>)
    requires Digits(b, 8)
    ensures Fits(Signed(b), |b|)
  {
    if b != [] {
      Pow8();
      var k := |b| - 1;
      var r := Reversed(b);
      assert r == r[..k] + [b[0]];
      MagAppend(r[..k], b[0], 8);
      MagBound(r[..k], 8);
      Pow2Add(8, 8 * k);
      Pow2Add(7, 8 * k);
      HalfSplit(b[0], Mag(r[..k], 8), Pow2(8 * k));
    }
  }

  lemma HalfSplit(x: int, m: int, p: int)
    requires 0 <= x < 256 && 0 <= m < p
    ensures x >= 128 ==> -128 * p <= m + x * p - 256 * p < 128 * p
    ensures x < 128 ==> -128 * p <= m + x * p < 128 * p
  {
    Monotone(0, x, p);
    if x >= 128 { Monotone(128, x, p); }
    Monotone(x + 1, if x >= 128 then 256 else 128, p);
    assert (x + 1) * p == x * p + p;
  }

}
