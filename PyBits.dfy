/** Python's bitwise operators on non-negative integers, as the
 * instruction-set design script uses them on masks and capability sets,
 * and its hand-written population count `_bit_count`
 * (`new_instruction_set.py`). Python integers are unbounded, so these are
 * defined bit by bit on `nat` rather than on a fixed-width bit-vector.
 * `x & ~m` is `AndNot(x, m)`: for `m >= 0` the complement has every bit
 * above `m`'s set, so only the bits of `x` outside `m` survive. */
module PyBits {
  import opened Arith

  /** Bit `k` of `x`. */
  predicate Bit(x: nat, k: nat)
  {
    if k == 0 then x % 2 == 1 else Bit(x / 2, k - 1)
  }

  /** `x & y`. */
  function And(x: nat, y: nat): nat
    decreases x
  {
    if x == 0 || y == 0 then 0
    else 2 * And(x / 2, y / 2) + (if x % 2 == 1 && y % 2 == 1 then 1 else 0)
  }

  /** `x | y`. */
  function Or(x: nat, y: nat): nat
    decreases x + y
  {
    if x == 0 then y
    else if y == 0 then x
    else 2 * Or(x / 2, y / 2) + (if x % 2 == 1 || y % 2 == 1 then 1 else 0)
  }

  /** `x & ~m`. */
  function AndNot(x: nat, m: nat): nat
    decreases x
  {
    if x == 0 then 0
    else 2 * AndNot(x / 2, m / 2) + (if x % 2 == 1 && m % 2 == 0 then 1 else 0)
  }

  /** The number of set bits. */
  function Popcount(x: nat): nat
  {
    if x == 0 then 0 else x % 2 + Popcount(x / 2)
  }

  /** `(1 << n) - 1`. */
  function Ones(n: nat): nat
  {
    Pow2(n) - 1
  }

  lemma {:induction false} BitAnd(x: nat, y: nat, k: nat)
    ensures Bit(And(x, y), k) <==> Bit(x, k) && Bit(y, k)
    decreases k
  {
    if x == 0 || y == 0 {
      ZeroHasNoBits(k);
    } else if k > 0 {
      BitAnd(x / 2, y / 2, k - 1);
    }
  }

  lemma {:induction false} BitOr(x: nat, y: nat, k: nat)
    ensures Bit(Or(x, y), k) <==> Bit(x, k) || Bit(y, k)
    decreases k
  {
    if x == 0 {
      ZeroHasNoBits(k);
    } else if y == 0 {
      ZeroHasNoBits(k);
    } else if k > 0 {
      BitOr(x / 2, y / 2, k - 1);
    }
  }

  lemma {:induction false} BitAndNot(x: nat, m: nat, k: nat)
    ensures Bit(AndNot(x, m), k) <==> Bit(x, k) && !Bit(m, k)
    decreases k
  {
    if x == 0 {
      ZeroHasNoBits(k);
    } else if k > 0 {
      BitAndNot(x / 2, m / 2, k - 1);
    }
  }

  lemma {:induction false} ZeroHasNoBits(k: nat)
    ensures !Bit(0, k)
  {
    if k > 0 {
      ZeroHasNoBits(k - 1);
    }
  }

  /** A number other than zero has a set bit. */
  lemma {:induction false} NonZeroHasBit(x: nat) returns (k: nat)
    requires x != 0
    ensures Bit(x, k)
  {
    if x % 2 == 1 {
      k := 0;
    } else {
      var j := NonZeroHasBit(x / 2);
      k := j + 1;
    }
  }

  /** `x & ~m == 0` exactly when every bit of `x` is a bit of `m`. */
  lemma AndNotZero(x: nat, m: nat)
    ensures AndNot(x, m) == 0 <==> forall k: nat :: Bit(x, k) ==> Bit(m, k)
  {
    if AndNot(x, m) == 0 {
      forall k: nat | Bit(x, k)
        ensures Bit(m, k)
      {
        BitAndNot(x, m, k);
        ZeroHasNoBits(k);
      }
    } else {
      var k := NonZeroHasBit(AndNot(x, m));
      BitAndNot(x, m, k);
    }
  }

  lemma {:induction false} AndSelf(x: nat)
    ensures And(x, x) == x
  {
    if x != 0 {
      AndSelf(x / 2);
    }
  }

  lemma PopcountDouble(a: nat)
    ensures Popcount(2 * a) == Popcount(a)
  {
  }

  /** `x & (x - 1)` clears the lowest set bit of `x`: the result is
   * smaller and has one set bit fewer. */
  lemma {:induction false} ClearLowest(x: nat)
    requires x > 0
    ensures And(x, x - 1) < x && Popcount(And(x, x - 1)) + 1 == Popcount(x)
  {
    if x % 2 == 1 {
      if x > 1 {
        AndSelf(x / 2);
        assert (x - 1) / 2 == x / 2;
        assert And(x, x - 1) == 2 * (x / 2);
        PopcountDouble(x / 2);
      }
    } else {
      ClearLowest(x / 2);
      assert (x - 1) / 2 == x / 2 - 1;
      PopcountDouble(And(x / 2, x / 2 - 1));
      PopcountDouble(x / 2);
    }
  }

  /** `_bit_count`: clear the lowest set bit until nothing is left,
   * counting the turns. */
  method BitCount(x: nat) returns (count: nat)
    ensures count == Popcount(x)
  {
    var y := x;
    count := 0;
    while y != 0
      invariant count + Popcount(y) == Popcount(x)
      decreases y
    {
      ClearLowest(y);
      y := And(y, y - 1);
      count := count + 1;
    }
  }

  /** `(1 << n) - 1 << i` has exactly `n` set bits. */
  lemma {:induction false} PopcountOnesShifted(n: nat, i: nat)
    ensures Popcount(Ones(n) * Pow2(i)) == n
  {
    if i > 0 {
      PopcountOnesShifted(n, i - 1);
      ShiftDouble(Ones(n), i);
      PopcountDouble(Ones(n) * Pow2(i - 1));
    } else {
      assert Ones(n) * Pow2(0) == Ones(n);
      OnesPopcount(n);
    }
  }

  /** A shift by one more is a doubling. */
  lemma ShiftDouble(a: nat, i: nat)
    requires i > 0
    ensures a * Pow2(i) == 2 * (a * Pow2(i - 1))
  {
    var p := Pow2(i - 1);
    assert Pow2(i) == 2 * p;
    assert a * (2 * p) == 2 * (a * p);
  }

  lemma {:induction false} OnesPopcount(n: nat)
    ensures Popcount(Ones(n)) == n
  {
    if n > 0 {
      OnesPopcount(n - 1);
      assert Ones(n) == 2 * Ones(n - 1) + 1;
    }
  }

  /** The bits of `(1 << n) - 1 << i` are bits `i` to `i + n - 1`. */
  lemma {:induction false} BitOfField(n: nat, i: nat, k: nat)
    ensures Bit(Ones(n) * Pow2(i), k) <==> i <= k < i + n
    decreases i + k
  {
    if i > 0 {
      ShiftDouble(Ones(n), i);
      if k > 0 {
        BitOfField(n, i - 1, k - 1);
      }
    } else if n == 0 {
      ZeroHasNoBits(k);
    } else {
      assert Ones(n) == 2 * Ones(n - 1) + 1;
      if k > 0 {
        BitOfField(n - 1, 0, k - 1);
      }
    }
  }
}
