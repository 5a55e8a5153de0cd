/** Bit fields of an instruction word as numbers: the field of `size` bits
 * starting at bit `shift` is `(x >> shift) & ((1 << size) - 1)`, written
 * `(x / 2^shift) % 2^size`. Setting a field whose bits are all zero with
 * `x | (v << shift)` is written as the sum `x + v * 2^shift`; the lemmas
 * here show that this sum holds `v` in that field and leaves every field
 * outside it as it was. */
module WordFields {
  import opened Arith

  function FieldOf(x: nat, shift: nat, size: nat): (f: nat)
    ensures f < Pow2(size)
  {
    (x / Pow2(shift)) % Pow2(size)
  }

  /** Two bit ranges that share no bit. */
  predicate Apart(shift1: nat, size1: nat, shift2: nat, size2: nat)
  {
    shift1 + size1 <= shift2 || shift2 + size2 <= shift1
  }

  /** Dividing by `a * b` is dividing by `a`, then by `b`. */
  lemma DivDiv(y: nat, a: nat, b: nat)
    requires a > 0 && b > 0
    ensures y / (a * b) == (y / a) / b
  {
    var q1, r1 := y / a, y % a;
    var q2, r2 := q1 / b, q1 % b;
    assert y == q2 * (a * b) + (r2 * a + r1) by {
      assert y == q1 * a + r1;
      assert q1 == q2 * b + r2;
      assert q1 * a == q2 * (a * b) + r2 * a;
    }
    assert r2 * a + r1 < a * b by {
      ShiftBound(r2, b, r1, a);
    }
    DivModUnique(y, a * b, q2, r2 * a + r1);
  }

  /** Adding a multiple of `q` does not change the remainder modulo `q`. */
  lemma AddMultipleMod(k: nat, q: nat, m: nat)
    requires q > 0
    ensures (k * q + m) % q == m % q
  {
    assert k * q + m == (k + m / q) * q + m % q;
    DivModUnique(k * q + m, q, k + m / q, m % q);
  }

  /** Dividing `k * p + m` by `p`. */
  lemma DivAddMultiple(k: nat, p: nat, m: nat)
    requires p > 0
    ensures (k * p + m) / p == k + m / p
  {
    assert k * p + m == (k + m / p) * p + m % p;
    DivModUnique(k * p + m, p, k + m / p, m % p);
  }

  /** Below a multiple `big` of `p * q`, `(y / p) % q` only depends on
   * `y % big`. */
  lemma LowDigits(y: nat, big: nat, p: nat, q: nat, r: nat)
    requires p > 0 && q > 0 && r > 0 && big == p * q * r
    ensures (y / p) % q == ((y % big) / p) % q
  {
    var a, l := y / big, y % big;
    assert y == a * big + l;
    var k := a * r;
    assert a * big == (k * q) * p by {
      Regroup(a, p, q, r);
    }
    DivAddMultiple(k * q, p, l);
    AddMultipleMod(k, q, l / p);
  }

  lemma Regroup(a: nat, p: nat, q: nat, r: nat)
    ensures a * (p * q * r) == ((a * r) * q) * p
  {
  }

  /** A field that lies below bit `s` depends only on `y % 2^s`. */
  lemma LowField(y: nat, s: nat, shift: nat, size: nat)
    requires shift + size <= s
    ensures FieldOf(y, shift, size) == FieldOf(y % Pow2(s), shift, size)
  {
    Pow2Add(shift, size);
    Pow2Add(shift + size, s - shift - size);
    LowDigits(y, Pow2(s), Pow2(shift), Pow2(size), Pow2(s - shift - size));
  }

  /** A field that lies at or above bit `s` is a field of `high`, which is
   * `y / 2^s`. */
  lemma HighField(y: nat, s: nat, shift: nat, size: nat, high: nat)
    requires s <= shift && high == y / Pow2(s)
    ensures FieldOf(y, shift, size) == FieldOf(high, shift - s, size)
  {
    var a, b := Pow2(s), Pow2(shift - s);
    Pow2Add(s, shift - s);
    assert Pow2(shift) == a * b;
    DivDiv(y, a, b);
    assert y / Pow2(shift) == high / b;
  }

  /** Setting a zero field of `x` to `v`: the field then holds `v`, every
   * field apart from it keeps its value, and the word keeps below `2^width`
   * when the field does. */
  lemma InsertField(x: nat, v: nat, shift: nat, size: nat)
    requires FieldOf(x, shift, size) == 0 && v < Pow2(size)
    ensures FieldOf(x + v * Pow2(shift), shift, size) == v
    ensures (x + v * Pow2(shift)) % Pow2(shift) == x % Pow2(shift)
    ensures (x + v * Pow2(shift)) / Pow2(shift + size) == x / Pow2(shift + size)
  {
    var p, q := Pow2(shift), Pow2(size);
    var x1, l := x / p, x % p;
    var h := x1 / q;
    assert x1 == h * q by {
      assert x1 == h * q + x1 % q;
    }
    var y := x + v * p;
    assert y == (h * q + v) * p + l;
    DivModUnique(y, p, h * q + v, l);
    DivModUnique(h * q + v, q, h, v);
    Pow2Add(shift, size);
    DivDiv(y, p, q);
    DivDiv(x, p, q);
  }

  lemma {:induction false} InsertElsewhere(x: nat, v: nat, shift: nat, size: nat, shift2: nat, size2: nat)
    requires FieldOf(x, shift, size) == 0 && v < Pow2(size)
    requires Apart(shift, size, shift2, size2)
    ensures FieldOf(x + v * Pow2(shift), shift2, size2) == FieldOf(x, shift2, size2)
  {
    InsertField(x, v, shift, size);
    var y := x + v * Pow2(shift);
    if shift2 + size2 <= shift {
      SameLow(x, y, shift, shift2, size2);
    } else {
      SameHigh(x, y, shift + size, shift2, size2);
    }
  }

  /** Two numbers that agree below bit `s` agree on every field below it. */
  lemma SameLow(x: nat, y: nat, s: nat, shift: nat, size: nat)
    requires shift + size <= s && y % Pow2(s) == x % Pow2(s)
    ensures FieldOf(y, shift, size) == FieldOf(x, shift, size)
  {
    LowField(y, s, shift, size);
    LowField(x, s, shift, size);
  }

  /** Two numbers that agree from bit `s` up agree on every field there. */
  lemma SameHigh(x: nat, y: nat, s: nat, shift: nat, size: nat)
    requires s <= shift && y / Pow2(s) == x / Pow2(s)
    ensures FieldOf(y, shift, size) == FieldOf(x, shift, size)
  {
    DivNatural(x, Pow2(s));
    var h := x / Pow2(s);
    HighField(y, s, shift, size, h);
    HighField(x, s, shift, size, h);
  }

  /** A number whose field `(x / p) % q` is zero. */
  lemma SplitZeroField(x: nat, p: nat, q: nat)
    requires p > 0 && q > 0 && (x / p) % q == 0
    ensures x == ((x / p) / q) * q * p + x % p
  {
    var a := x / p;
    assert a == (a / q) * q + a % q;
  }

  /** The digits above a field of a number below `p * q * r`. */
  lemma HighDigitsBound(x: nat, p: nat, q: nat, r: nat)
    requires p > 0 && q > 0 && r > 0 && x < p * q * r
    ensures (x / p) / q < r
  {
    var a := x / p;
    var b := a / q;
    DivBelow(x, p);
    DivBelow(a, q);
    MulBelow(b * q, a, p);
    Commute3(p, q, r);
    CancelBelow(b * q, r * q, p);
    CancelBelow(b, r, q);
  }

  lemma DivBelow(n: nat, d: nat)
    requires d > 0
    ensures (n / d) * d <= n
  {
    assert n == (n / d) * d + n % d;
  }

  lemma Commute3(p: nat, q: nat, r: nat)
    ensures p * q * r == (r * q) * p
  {
  }

  lemma MulBelow(a: nat, b: nat, c: nat)
    requires a <= b
    ensures a * c <= b * c
  {
  }

  /** `a * c < b * c` for a positive `c` means `a < b`. */
  lemma CancelBelow(a: nat, b: nat, c: nat)
    requires c > 0 && a * c < b * c
    ensures a < b
  {
  }

  /** The arithmetic of `InsertBound`, with the powers of two named. */
  lemma InsertBoundArith(x: nat, v: nat, p: nat, q: nat, r: nat)
    requires p > 0 && q > 0 && r > 0
    requires (x / p) % q == 0 && v < q && x < p * q * r
    ensures x + v * p < p * q * r
  {
    var b, l := (x / p) / q, x % p;
    SplitZeroField(x, p, q);
    HighDigitsBound(x, p, q, r);
    LinearBound(b, v, l, p, q, r);
  }

  lemma LinearBound(b: nat, v: nat, l: nat, p: nat, q: nat, r: nat)
    requires b < r && v < q && l < p
    ensures b * q * p + l + v * p < p * q * r
  {
    assert b * q * p + l + v * p == (b * q + v) * p + l;
    ShiftBound(b * q + v, (b + 1) * q, l, p);
    assert (b + 1) * q <= r * q;
    assert ((b + 1) * q) * p <= (r * q) * p;
  }

  /** A 16-bit word stays a 16-bit word when a zero field inside it is
   * set. */
  lemma InsertBound(x: nat, v: nat, shift: nat, size: nat)
    requires FieldOf(x, shift, size) == 0 && v < Pow2(size)
    requires shift + size <= 16 && x < 0x1_0000
    ensures x + v * Pow2(shift) < 0x1_0000
  {
    Pow2Add(shift, size);
    Pow2Add(shift + size, 16 - shift - size);
    Pow2Values();
    var p, q, r := Pow2(shift), Pow2(size), Pow2(16 - shift - size);
    assert 0x1_0000 == (p * q) * r;
    InsertBoundArith(x, v, p, q, r);
  }
}
