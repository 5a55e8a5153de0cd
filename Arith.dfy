/** Powers of two and division facts shared by the bit-field models.
 *
 * Throughout the model `x & (2^k - 1)` is written `x % Pow2(k)`,
 * `x >> k` is written `x / Pow2(k)`, `x << k` is written `x * Pow2(k)`, and
 * the OR of fields that occupy disjoint bits is written as their sum. */
module Arith {
  function Pow2(n: nat): (p: nat)
    ensures p >= 1
  {
    if n == 0 then 1 else 2 * Pow2(n - 1)
  }

  lemma {:induction false} Pow2Add(a: nat, b: nat)
    ensures Pow2(a + b) == Pow2(a) * Pow2(b)
  {
    if a > 0 {
      Pow2Add(a - 1, b);
    }
  }

  lemma {:induction false} Pow2Monotone(a: nat, b: nat)
    requires a <= b
    ensures Pow2(a) <= Pow2(b)
  {
    if a < b {
      Pow2Monotone(a, b - 1);
    }
  }

  /** The powers of two up to 2^16, as literals. */
  lemma Pow2Values()
    ensures Pow2(0) == 1 && Pow2(1) == 2 && Pow2(2) == 4 && Pow2(3) == 8
    ensures Pow2(4) == 16 && Pow2(5) == 32 && Pow2(6) == 64 && Pow2(7) == 128
    ensures Pow2(8) == 256 && Pow2(9) == 512 && Pow2(10) == 1024 && Pow2(11) == 2048
    ensures Pow2(12) == 4096 && Pow2(13) == 8192 && Pow2(14) == 16384
    ensures Pow2(15) == 32768 && Pow2(16) == 65536
  {
  }

  lemma MulAtLeast(a: int, d: int)
    requires a >= 1 && d > 0
    ensures a * d >= d
  {
  }

  lemma MulSmall(k: int, d: int)
    requires d > 0 && -d < k * d < d
    ensures k == 0
  {
    if k >= 1 {
      MulAtLeast(k, d);
    } else if k <= -1 {
      MulAtLeast(-k, d);
    }
  }

  /** Quotient and remainder are determined by `n == q * d + r`. */
  lemma DivModUnique(n: int, d: int, q: int, r: int)
    requires d > 0 && 0 <= r < d && n == q * d + r
    ensures n / d == q && n % d == r
  {
    var q0, r0 := n / d, n % d;
    assert (q - q0) * d == r0 - r;
    MulSmall(q - q0, d);
  }

  /** A natural number divided by a positive one is natural. */
  lemma DivNatural(n: nat, d: nat)
    requires d > 0
    ensures n / d >= 0
  {
  }

  /** `n` minus its remainder is a multiple of `d`. */
  lemma ModMultiple(n: int, d: int)
    requires d > 0
    ensures 0 <= n % d < d && (n - n % d) % d == 0
  {
    assert n - n % d == (n / d) * d;
    DivModUnique(n - n % d, d, n / d, 0);
  }

  /** Both the remainder and the remainder less `d` differ from `n` by a
   * multiple of `d`. */
  lemma ModShift(n: int, d: int)
    requires d > 0
    ensures (n - n % d) % d == 0 && (n - (n % d - d)) % d == 0
  {
    ModMultiple(n, d);
    assert n - (n % d - d) == (n / d + 1) * d;
    DivModUnique(n - (n % d - d), d, n / d + 1, 0);
  }

  /** Halving sums and differences of even numbers. */
  lemma HalfOfEvens(x: int, y: int)
    requires x % 2 == 0 && y % 2 == 0
    ensures (x + y) % 2 == 0 && (x + y) / 2 == x / 2 + y / 2
    ensures (x - y) % 2 == 0 && (x - y) / 2 == x / 2 - y / 2
  {
    DivModUnique(x + y, 2, x / 2 + y / 2, 0);
    DivModUnique(x - y, 2, x / 2 - y / 2, 0);
  }

  /** Reducing modulo `a * b` keeps the remainder modulo `a`. */
  lemma ModMod(x: nat, a: nat, b: nat)
    requires a > 0 && b > 0
    ensures x % (a * b) % a == x % a
  {
    var q, r := x / (a * b), x % (a * b);
    assert x == (q * b) * a + r by {
      assert x == q * (a * b) + r;
    }
    DivModUnique(x, a, q * b + r / a, r % a);
    DivModUnique(r, a, r / a, r % a);
  }

  /** Appending `q` low bits to a shifted number: regrouping the factors. */
  lemma ShiftRegroup(x: int, p: int, y: int, q: int, c: int)
    ensures (x * p + y) * q + c == x * (p * q) + (y * q + c)
  {
    assert (x * p + y) * q == x * p * q + y * q;
  }

  /** A number below `p` followed by one below `q` is below `p * q`. */
  lemma ShiftBound(x: int, p: int, v: int, q: int)
    requires 0 <= x < p && 0 <= v < q
    ensures x * q + v < p * q
  {
    assert x * q + v < (x + 1) * q;
    assert (x + 1) * q <= p * q;
  }
}
