/** Rust's `i32` arithmetic as the assembler's expression evaluators use it:
 * the `checked_*` operations, which answer `None` instead of overflowing,
 * and the bitwise operators on the two's-complement representation. */
module I32 {
  import opened Wrappers
  import Arith

  const Min: int := -0x8000_0000
  const Max: int := 0x7fff_ffff

  type i32 = x: int | -0x8000_0000 <= x <= 0x7fff_ffff

  predicate InRange(x: int)
  {
    Min <= x <= Max
  }

  /** Wrap an integer to 32 bits, two's complement. */
  function Wrap(x: int): (r: i32)
    ensures InRange(x) ==> r == x
    ensures (r - x) % 0x1_0000_0000 == 0
  {
    (x - Min) % 0x1_0000_0000 + Min
  }

  function CheckedAdd(a: i32, b: i32): (r: Option<i32>)
    ensures r.Some? <==> InRange(a + b)
    ensures r.Some? ==> r.value == a + b
  {
    if InRange(a + b) then Some(a + b) else None
  }

  function CheckedSub(a: i32, b: i32): (r: Option<i32>)
    ensures r.Some? <==> InRange(a - b)
    ensures r.Some? ==> r.value == a - b
  {
    if InRange(a - b) then Some(a - b) else None
  }

  function CheckedMul(a: i32, b: i32): (r: Option<i32>)
    ensures r.Some? <==> InRange(a * b)
    ensures r.Some? ==> r.value == a * b
  {
    if InRange(a * b) then Some(a * b) else None
  }

  function CheckedNeg(a: i32): (r: Option<i32>)
    ensures r.Some? <==> a != Min
    ensures r.Some? ==> r.value == -a
  {
    if a == Min then None else Some(-a)
  }

  function Abs(a: int): nat
  {
    if a < 0 then -a else a
  }

  /** Division rounding toward zero, as Rust's `/`: the quotient of the
   * magnitudes, negative when exactly one operand is. */
  function TruncDiv(a: int, b: int): (q: int)
    requires b != 0
  {
    var m := Abs(a) / Abs(b);
    if (a < 0) == (b < 0) then m else -m
  }

  /** The remainder that goes with it, `a - (a / b) * b`. */
  function TruncRem(a: int, b: int): (r: int)
    requires b != 0
  {
    a - TruncDiv(a, b) * b
  }

  /** The remainder is the remainder of the magnitudes, with the sign of
   * `a`. */
  lemma TruncRemSign(a: int, b: int)
    requires b != 0
    ensures TruncRem(a, b) == if a < 0 then -(Abs(a) % Abs(b)) else Abs(a) % Abs(b)
  {
    var n, d := Abs(a), Abs(b);
    var m := n / d;
    assert n == m * d + n % d;
    if b < 0 {
      assert m * b == -(m * d);
    } else {
      assert m * b == m * d;
    }
  }

  /** `checked_div`: `None` on a zero divisor and on `i32::MIN / -1`. */
  function CheckedDiv(a: i32, b: i32): (r: Option<i32>)
    ensures r.None? <==> b == 0 || (a == Min && b == -1)
    ensures r.Some? ==> r.value == TruncDiv(a, b)
  {
    if b == 0 || (a == Min && b == -1) then None
    else
      DivFits(a, b);
      Some(TruncDiv(a, b))
  }

  /** `checked_rem`: `None` in the same cases as `checked_div`. */
  function CheckedRem(a: i32, b: i32): (r: Option<i32>)
    ensures r.None? <==> b == 0 || (a == Min && b == -1)
    ensures r.Some? ==> r.value == TruncRem(a, b) && Abs(r.value) < Abs(b)
  {
    if b == 0 || (a == Min && b == -1) then None
    else
      RemSmall(a, b);
      Some(TruncRem(a, b))
  }

  lemma DivFits(a: i32, b: i32)
    requires b != 0 && !(a == Min && b == -1)
    ensures InRange(TruncDiv(a, b))
  {
    var m := Abs(a) / Abs(b);
    if Abs(b) >= 2 {
      assert m <= Abs(a) / 2 by {
        DivideMore(Abs(a), Abs(b));
      }
    }
  }

  lemma DivideMore(n: nat, d: nat)
    requires d >= 2
    ensures n / d <= n / 2
  {
    var q := n / d;
    assert q * d <= n;
    assert q * 2 <= q * d;
  }

  lemma RemSmall(a: i32, b: i32)
    requires b != 0 && !(a == Min && b == -1)
    ensures InRange(TruncRem(a, b)) && Abs(TruncRem(a, b)) < Abs(b)
  {
    TruncRemSign(a, b);
  }

  /** `checked_shl` with an unsigned amount: `None` at 32 and beyond,
   * otherwise the bits shifted out are lost. */
  function CheckedShl(a: i32, s: nat): (r: Option<i32>)
    ensures r.None? <==> s >= 32
    ensures r.Some? ==> (r.value - a * Arith.Pow2(s)) % 0x1_0000_0000 == 0
  {
    if s >= 32 then None else Some(Wrap(a * Arith.Pow2(s)))
  }

  /** `checked_shr` with an unsigned amount: an arithmetic shift, which
   * rounds toward negative infinity. */
  function CheckedShr(a: i32, s: nat): (r: Option<i32>)
    ensures r.None? <==> s >= 32
    ensures r.Some? ==> r.value * Arith.Pow2(s) <= a < (r.value + 1) * Arith.Pow2(s)
  {
    if s >= 32 then None
    else
      ShrFits(a, s);
      Some(a / Arith.Pow2(s))
  }

  lemma ShrFits(a: i32, s: nat)
    requires s < 32
    ensures InRange(a / Arith.Pow2(s))
    ensures (a / Arith.Pow2(s)) * Arith.Pow2(s) <= a < (a / Arith.Pow2(s) + 1) * Arith.Pow2(s)
  {
    FloorDivBounds(a, Arith.Pow2(s));
    FloorDivRange(a, Arith.Pow2(s));
  }

  /** Euclidean division by a positive divisor brackets the dividend. */
  lemma FloorDivBounds(a: int, p: int)
    requires p >= 1
    ensures (a / p) * p <= a < (a / p + 1) * p
  {
    var q := a / p;
    assert a == q * p + a % p && 0 <= a % p < p;
    assert (q + 1) * p == q * p + p;
  }

  /** Dividing by a positive divisor moves a value toward zero, never past
   * it. */
  lemma FloorDivRange(a: int, p: int)
    requires p >= 1
    ensures a >= 0 ==> 0 <= a / p <= a
    ensures a < 0 ==> a <= a / p < 0
  {
    var q := a / p;
    FloorDivBounds(a, p);
    if a >= 0 {
      if q > a {
        ScaleUp(q, p);
        assert false;
      }
    } else {
      if q < a {
        assert (q + 1) * p == -(-(q + 1) * p);
        ScaleUp(-(q + 1), p);
        assert false;
      }
    }
  }

  lemma ScaleUp(x: int, p: int)
    requires x >= 0 && p >= 1
    ensures x * p >= x
  {
    assert x * p == x + x * (p - 1);
  }

  // --------------------------------------------------------- bitwise

  /** The 32-bit pattern of a value. */
  function ToBits(v: i32): bv32
  {
    (if v < 0 then v + 0x1_0000_0000 else v) as bv32
  }

  /** The value a 32-bit pattern stands for. */
  function FromBits(b: bv32): i32
  {
    if b as int > Max then b as int - 0x1_0000_0000 else b as int
  }

  function BitAnd(a: i32, b: i32): i32 { FromBits(ToBits(a) & ToBits(b)) }
  function BitOr(a: i32, b: i32): i32 { FromBits(ToBits(a) | ToBits(b)) }
  function BitXor(a: i32, b: i32): i32 { FromBits(ToBits(a) ^ ToBits(b)) }

  /** `!v` on an `i32`: every bit flipped, which in two's complement is
   * `-v - 1`. */
  function BitNot(a: i32): (r: i32)
    ensures r + a == -1
  {
    -1 - a
  }
}
